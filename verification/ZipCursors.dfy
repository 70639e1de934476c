/** Random access into deflated ZIP members through four resumable decoder cursors. Whatever
    was read before, a read that succeeds returns the bytes a decode from byte 0 would have
    produced.
 */
module ZipCursors {
  import opened Basics
  import opened ZipDecoding

  class ZipBackend {
    const file: seq<Byte>
    const codec: Codec
    const update: (nat, seq<Byte>) -> nat
    /** The index the entries come from, by local header offset. */
    const catalog: map<nat, Entry>
    var sess: seq<Session>
    var stamp: nat
    var starts: map<nat, nat>

    ghost predicate Valid()
      reads this
    {
      && Lawful(codec) && Continues(update) && |sess| == 4
      && (forall k :: k in catalog ==> catalog[k].extra == k)
      && (forall i :: 0 <= i < |sess| && sess[i].open ==>
                        sess[i].key in catalog && Faithful(file, codec, update, catalog[sess[i].key], sess[i]))
      && (forall i, j :: 0 <= i < j < |sess| && sess[i].open && sess[j].open ==> sess[i].key != sess[j].key)
      && (forall k :: k in starts ==> LocalStart(file, k) == Some(starts[k]))
    }

    constructor (f: seq<Byte>, c: Codec, u: (nat, seq<Byte>) -> nat, entries: map<nat, Entry>)
      requires Lawful(c) && Continues(u) && forall k :: k in entries ==> entries[k].extra == k
      ensures Valid() && file == f && codec == c && update == u && catalog == entries
      ensures forall j :: 0 <= j < |sess| ==> !sess[j].open
    {
      file, codec, update, catalog := f, c, u, entries;
      sess, stamp, starts := [CLOSED, CLOSED, CLOSED, CLOSED], 0, map[];
    }

    /** Resolved once per entry and cached by header offset. */
    method DataStart(e: Entry) returns (r: Option<nat>)
      requires Valid()
      modifies this`starts
      ensures Valid() && r == Start(file, e)
      ensures r.Some? && e.dataOffset == 0 ==> e.extra in starts && starts[e.extra] == r.value
    {
      if e.dataOffset != 0 {
        return Some(e.dataOffset);
      }
      if e.extra in starts {
        return Some(starts[e.extra]);
      }
      r := LocalStart(file, e.extra);
      if r.Some? {
        starts := starts[e.extra := r.value];
      }
    }

    /** Produces the next `want` bytes of cursor i, fewer only at the end of the stream. */
    method InflateTo(i: nat, want: nat) returns (r: Option<seq<Byte>>)
      requires Valid() && i < 4 && sess[i].open
      modifies this`sess
      ensures Valid() && |sess| == 4 && sess[i].open && sess[i].key == old(sess)[i].key
      ensures forall j :: 0 <= j < 4 && j != i ==> sess[j] == old(sess)[j]
      ensures r.Some? ==> |r.value| <= want && sess[i].outPos == old(sess)[i].outPos + |r.value|
      ensures r.Some? ==> sess[i].outPos <= |Plain(file, codec, catalog[sess[i].key])| &&
                          r.value == Plain(file, codec, catalog[sess[i].key])[old(sess)[i].outPos..sess[i].outPos]
      ensures r.Some? && |r.value| < want ==> sess[i].ended
      ensures (Intact(file, codec, catalog[sess[i].key]) &&
               old(sess)[i].outPos + want <= |Plain(file, codec, catalog[sess[i].key])|) ==>
                r.Some? && |r.value| == want
      ensures r.Some? && want > 0 ==> Drained(codec, sess[i])
      ensures r.Some? && Paced(file, codec, catalog[sess[i].key], old(sess)[i], want) ==>
                OnPace(file, codec, catalog[sess[i].key], sess[i])
    {
      hide Faithful, Lawful, Continues, Plain, Start, LocalStart, Packed, Intact, Drained, Paced, OnPace;
      var e := catalog[sess[i].key];
      var s;
      s, r := Produce(file, codec, update, e, sess[i], want);
      Store(i, s);
    }

    /** Writes the cursor back. */
    method Store(i: nat, s: Session)
      requires Valid() && i < 4 && sess[i].open && s.open && s.key == sess[i].key
      requires Faithful(file, codec, update, catalog[s.key], s)
      modifies this`sess
      ensures Valid() && sess == old(sess)[i := s]
    {
      hide Faithful, Lawful, Continues;
      sess := sess[i := s];
    }

    method Drop(i: nat)
      requires Valid() && i < 4
      modifies this`sess
      ensures Valid() && sess == old(sess)[i := old(sess)[i].(open := false)]
    {
      hide Faithful, Lawful, Continues;
      sess := sess[i := sess[i].(open := false)];
    }

    /** The open cursor of a key, or 4. */
    method FindCursor(key: nat) returns (found: nat)
      requires |sess| == 4
      ensures found <= 4 && (found < 4 ==> sess[found].open && sess[found].key == key)
      ensures found == 4 ==> forall j :: 0 <= j < 4 ==> !(sess[j].open && sess[j].key == key)
    {
      for k := 0 to 4
        invariant forall j :: 0 <= j < k ==> !(sess[j].open && sess[j].key == key)
      {
        if sess[k].open && sess[k].key == key {
          return k;
        }
      }
      return 4;
    }

    /** A closed cursor if there is one, otherwise the least recently used. */
    method PickVictim() returns (victim: nat)
      requires |sess| == 4
      ensures victim < 4
      ensures sess[victim].open ==> forall j :: 0 <= j < 4 ==> sess[j].open && sess[victim].stamp <= sess[j].stamp
    {
      victim := 0;
      for k := 0 to 4
        invariant victim < 4
        invariant forall j :: 0 <= j < k ==> sess[j].open && sess[victim].stamp <= sess[j].stamp
      {
        if !sess[k].open {
          return k;
        }
        if sess[k].stamp < sess[victim].stamp {
          victim := k;
        }
      }
    }

    /** The cursor of this entry at or before `off`: resumed if it is not past, otherwise
        restarted at byte 0 in a free or the least recently used place. */
    method Acquire(e: Entry, start: nat, off: nat) returns (i: nat)
      requires Valid() && e.extra in catalog && catalog[e.extra] == e && Start(file, e) == Some(start)
      modifies this`sess, this`stamp
      ensures Valid() && i < 4 && sess[i].open && sess[i].key == e.extra && sess[i].outPos <= off && !sess[i].ended
      ensures sess[i].outPos == 0 ||
              (old(sess)[i].open && old(sess)[i].key == e.extra && sess[i].outPos == old(sess)[i].outPos)
      ensures forall j :: 0 <= j < 4 && Resumable(old(sess)[j], e.extra, off) ==>
                i == j && sess == old(sess)[j := old(sess)[j].(stamp := stamp)]
      ensures forall j :: 0 <= j < 4 && j != i && old(sess)[j].key != e.extra ==> sess[j] == old(sess)[j]
      ensures (forall j :: 0 <= j < 4 ==> !old(sess)[j].open) ==>
                sess[i] == Session(true, e.extra, start, e.packedSize, [], [], 0, 0, false, stamp)
      ensures old(sess)[i].open && old(sess)[i].key != e.extra ==>
                forall j :: 0 <= j < 4 ==> old(sess)[j].open && old(sess)[i].stamp <= old(sess)[j].stamp
    {
      hide Faithful, Lawful, Continues, Start, LocalStart;
      i := FindCursor(e.extra);
      ghost var all := sess;
      if i < 4 && (sess[i].outPos > off || sess[i].ended) {
        Drop(i);
        i := 4;
      }
      assert forall j :: 0 <= j < 4 ==> sess[j] == all[j] || (!sess[j].open && all[j].key == e.extra);
      if i == 4 {
        i := PickVictim();
        Restart(i, e, start);
      }
      Touch(i);
    }

    /** Drops place i and opens the entry there from byte 0. */
    method Restart(i: nat, e: Entry, start: nat)
      requires Valid() && i < 4 && e.extra in catalog && catalog[e.extra] == e && Start(file, e) == Some(start)
      requires forall j :: 0 <= j < 4 && sess[j].open ==> sess[j].key != e.extra
      modifies this`sess
      ensures Valid() && sess == old(sess)[i := Session(true, e.extra, start, e.packedSize, [], [], 0, 0, false, 0)]
    {
      hide Faithful, Lawful, Continues, Start, LocalStart;
      Drop(i);
      var s := Session(true, e.extra, start, e.packedSize, [], [], 0, 0, false, 0);
      NewFaithful(file, codec, update, e, s);
      sess := sess[i := s];
    }

    /** Marks a cursor as the most recently used. */
    method Touch(i: nat)
      requires Valid() && i < 4 && sess[i].open
      modifies this`sess, this`stamp
      ensures Valid() && stamp == old(stamp) + 1 && sess == old(sess)[i := old(sess)[i].(stamp := stamp)]
    {
      hide Faithful, Lawful, Continues, Start, LocalStart;
      stamp := stamp + 1;
      StampFaithful(file, codec, update, catalog[sess[i].key], sess[i], stamp);
      sess := sess[i := sess[i].(stamp := stamp)];
    }

    /** The check at the end of a member: one more call of the decompressor, on the input it
        has or else the next buffer and with room for one byte, has to report the end of the
        stream, and the checksum of everything decoded has to match. The cursor is dropped. */
    method CheckEnd(i: nat, e: Entry) returns (ok: bool)
      requires Valid() && i < 4 && sess[i].open && e.extra in catalog && catalog[e.extra] == e
      requires sess[i].key == e.extra && sess[i].outPos == e.size
      modifies this`sess
      ensures Valid() && !sess[i].open
      ensures Start(file, e).Some? && e.size <= |Plain(file, codec, e)|
      ensures ok <==> EndSeen(file, codec, old(sess)[i]) && update(0, Plain(file, codec, e)[..e.size]) == e.crc
      ensures ok ==> |Plain(file, codec, e)| <= e.size + 1
    {
      hide Faithful, Lawful, Continues, Start, LocalStart, Plain, Packed;
      var s := sess[i];
      var ended := s.ended;
      EndFacts(file, codec, update, e, s);
      if !ended {
        if s.pending == [] && s.compLeft > 0 {
          var n := Min(INPUT_SIZE, s.compLeft);
          var data := Pread(file, s.filePos, n);
          if data.Some? {
            FillFaithful(file, codec, update, e, s, n);
            s := Filled(s, data.value);
          }
        }
        assert s.pending == Seen(file, sess[i]);
        var rc, used, out := Inflate(codec, s.fed, s.pending, s.outPos, 1);
        ProbeExact(codec, s.fed, s.pending, s.outPos, used, |out|, rc == StreamEnd);
        if rc == StreamEnd {
          FeedFaithful(file, codec, update, e, s, used, out);
          EndLength(file, codec, update, e, Feed(s, used, |out|, update(s.crc, out)));
        }
        ended := rc == StreamEnd;
      }
      ok := ended && s.crc == e.crc;
      Drop(i);
    }

    /** Bytes [off, off+len) of a member, clamped to its size; None for an error. `probe` is
        the cursor as the check at the end of the member finds it. */
    method ExtractRange(e: Entry, off: int, len: int) returns (r: Option<seq<Byte>>, ghost probe: Session)
      requires Valid() && e.extra in catalog && catalog[e.extra] == e
      modifies this
      ensures Valid()
      ensures off < 0 || len < 0 ==> r == None
      ensures off >= 0 && len >= 0 && off >= e.size ==> r == Some([])
      ensures r.Some? && 0 <= off < e.size ==> len >= 0 && Start(file, e).Some? && |r.value| == Min(len, e.size - off)
      ensures 0 <= off < e.size && len >= 0 && Start(file, e).None? ==> r == None
      ensures 0 <= off < e.size && len >= 0 && e.method_ == STORED && Start(file, e).Some? ==>
                r == Pread(file, Start(file, e).value + off, Min(len, e.size - off))
      ensures r.Some? && 0 <= off < e.size && e.method_ != STORED ==>
                off + |r.value| <= |Plain(file, codec, e)| && r.value == Plain(file, codec, e)[off..off + |r.value|]
      ensures r.Some? && ReachesEnd(e, off, len) ==>
                |Plain(file, codec, e)| <= e.size + 1 && update(0, Plain(file, codec, e)[..e.size]) == e.crc
      ensures 0 <= off < e.size && len >= 0 && e.method_ != STORED && off + len < e.size && Intact(file, codec, e) ==>
                r.Some?
      ensures ReachesEnd(e, off, len) && Intact(file, codec, e) ==>
                && Faithful(file, codec, update, e, probe) && probe.outPos == e.size && Drained(codec, probe)
                && (r.Some? <==> EndSeen(file, codec, probe) && update(0, Plain(file, codec, e)[..e.size]) == e.crc)
      ensures ReachesEnd(e, off, len) && Exact(file, codec, update, e) && EndsSoon(file, codec, e) ==> r.Some?
      ensures (&& ReachesEnd(e, off, len) && Exact(file, codec, update, e) && !EndsSoon(file, codec, e)
               && off == 0 && e.size <= CALL_SIZE && forall j :: 0 <= j < 4 ==> !old(sess)[j].open) ==> r.None?
    {
      hide Faithful, Lawful, Continues, Start, LocalStart, Plain, Packed, Intact, Drained, Paced, OnPace, EndSeen, EndsSoon;
      IntactFacts(file, codec, e);
      probe := CLOSED;
      if off < 0 || len < 0 {
        r := None;
        return;
      }
      if off >= e.size {
        r := Some([]);
        return;
      }
      var want := Min(len, e.size - off);
      var ds := DataStart(e);
      if ds.None? {
        r := None;
        return;
      }
      if e.method_ == STORED {
        r := Pread(file, ds.value + off, want);
        PreadSize(file, ds.value + off, want);
        return;
      }
      var i := Acquire(e, ds.value, off);
      ghost var whole := off == 0 && want == e.size <= CALL_SIZE && (forall j :: 0 <= j < 4 ==> !old(sess)[j].open);
      if whole {
        FreshPaced(file, codec, e, sess[i], want);
      }
      while sess[i].outPos < off
        invariant Valid() && i < 4 && sess[i].open && sess[i].key == e.extra && sess[i].outPos <= off
        invariant whole && Intact(file, codec, e) ==> Paced(file, codec, e, sess[i], want)
        decreases off - sess[i].outPos
      {
        var chunk := Min(INPUT_SIZE, off - sess[i].outPos);
        var skipped := InflateTo(i, chunk);
        if skipped.None? || |skipped.value| != chunk {
          Drop(i);
          r := None;
          return;
        }
      }
      r := InflateTo(i, want);
      if r.None? || |r.value| != want {
        Drop(i);
        r := None;
        return;
      }
      if sess[i].outPos == e.size {
        probe := sess[i];
        ProbeFacts(file, codec, update, e, probe);
        var ok := CheckEnd(i, e);
        if !ok {
          r := None;
          return;
        }
      }
    }
  }

  /** A cursor that a read at `off` of the entry can go on from. */
  predicate Resumable(s: Session, key: nat, off: nat) {
    s.open && s.key == key && s.outPos <= off && !s.ended
  }

  /** A read of a deflated member up to its last byte. */
  predicate ReachesEnd(e: Entry, off: int, len: int) {
    0 <= off < e.size && len >= 0 && e.method_ != STORED && off + len >= e.size
  }

  /** A member that is as its index entry says. */
  ghost predicate Exact(file: seq<Byte>, c: Codec, update: (nat, seq<Byte>) -> nat, e: Entry) {
    && Intact(file, c, e) && Start(file, e).Some?
    && |Plain(file, c, e)| == e.size && update(0, Plain(file, c, e)) == e.crc
  }

  lemma FreshPaced(file: seq<Byte>, c: Codec, e: Entry, s: Session, want: nat)
    requires Lawful(c) && Start(file, e).Some?
    requires s.fed == [] && s.pending == [] && s.outPos == 0 && s.filePos == Start(file, e).value
    requires want <= CALL_SIZE && want <= e.size
    ensures Intact(file, c, e) ==> Paced(file, c, e, s, want)
  {
    hide Intact;
    assert c.decode([]) == [];
  }

  lemma ProbeFacts(file: seq<Byte>, c: Codec, update: (nat, seq<Byte>) -> nat, e: Entry, s: Session)
    requires Lawful(c) && Faithful(file, c, update, e, s) && s.outPos == e.size && Drained(c, s)
    ensures Exact(file, c, update, e) ==>
              && update(0, Plain(file, c, e)[..e.size]) == e.crc
              && (EndsSoon(file, c, e) ==> EndSeen(file, c, s))
              && (EndSeen(file, c, s) && OnPace(file, c, e, s) ==> EndsSoon(file, c, e))
  {
    hide Faithful, Lawful, Intact, Drained, EndSeen, EndsSoon, OnPace, Start, Packed;
    if Exact(file, c, update, e) {
      assert Plain(file, c, e)[..e.size] == Plain(file, c, e);
      EndSeenExact(file, c, update, e, s);
    }
  }

  // ---- two members at the edge ---------------------------------------------------------------

  /** A decoder that turns any input into `text`, and finds the end of the stream after
      `length` bytes. */
  function Constant(text: seq<Byte>, length: nat): Codec {
    Codec((x: seq<Byte>) => if x == [] then [] else text,
          (x: seq<Byte>) => x != [] && |x| >= length,
          (x: seq<Byte>) => false)
  }

  lemma ConstantLawful(text: seq<Byte>, length: nat)
    ensures Lawful(Constant(text, length))
  {
    var c := Constant(text, length);
    forall x, y ensures c.decode(x) <= c.decode(x + y) && (c.ended(x) ==> c.ended(x + y) && c.decode(x + y) == c.decode(x)) {
      if x == [] {
        assert c.decode(x) == [];
      }
    }
  }

  /** A checksum that adds up. */
  function Sum(c: nat, x: seq<Byte>): nat
    decreases |x|
  {
    if x == [] then c else Sum(c + x[0], x[1..])
  }

  lemma {:induction false} SumContinues(c: nat, x: seq<Byte>, y: seq<Byte>)
    ensures Sum(Sum(c, x), y) == Sum(c, x + y)
    decreases |x|
  {
    if x == [] {
      assert x + y == y;
    } else {
      assert (x + y)[1..] == x[1..] + y;
      SumContinues(c + x[0], x[1..], y);
    }
  }

  lemma SumLawful()
    ensures Continues(Sum)
  {
    forall c, x, y ensures Sum(Sum(c, x), y) == Sum(c, x + y) {
      SumContinues(c, x, y);
    }
  }

  /** A backend with one member, whose data begins at byte 1 of the file. */
  method Backend(length: nat, packed: nat, text: seq<Byte>) returns (b: ZipBackend, e: Entry)
    ensures fresh(b) && b.Valid() && b.file == seq(packed + 1, i => 0) && b.codec == Constant(text, length)
    ensures b.update == Sum && e == Entry(1, packed, 1, 0, 8, 7) && b.catalog == map[0 := e]
    ensures forall j :: 0 <= j < |b.sess| ==> !b.sess[j].open
  {
    ConstantLawful(text, length);
    SumLawful();
    e := Entry(1, packed, 1, 0, 8, 7);
    b := new ZipBackend(seq(packed + 1, i => 0), Constant(text, length), Sum, map[0 := e]);
  }

  /** A member of two bytes whose index entry says one is read without complaint. */
  method ExtraByteAccepted() returns (b: ZipBackend, e: Entry, r: Option<seq<Byte>>)
    ensures Start(b.file, e).Some? && |Plain(b.file, b.codec, e)| == e.size + 1 && e.method_ != STORED
    ensures r == Some([7])
  {
    hide Faithful, EndSeen, EndsSoon, Intact, Drained, Lawful, Plain, Packed, Start, Exact, Constant, Sum;
    b, e := Backend(1, 1, [7, 8]);
    ghost var probe;
    assert b.file == [0, 0];
    ExtraMember(b.file, b.codec, e);
    r, probe := b.ExtractRange(e, 0, 1);
    ExtraByteSeen(b.file, b.codec, b.update, e, probe);
  }

  lemma SmallIntact(file: seq<Byte>, c: Codec, e: Entry)
    requires Start(file, e).Some? && Start(file, e).value + e.packedSize <= |file| && e.size <= |Plain(file, c, e)|
    requires forall x :: !c.rejects(x)
    ensures Intact(file, c, e)
  {
  }

  lemma ExtraMember(file: seq<Byte>, c: Codec, e: Entry)
    requires file == [0, 0] && c == Constant([7, 8], 1) && e == Entry(1, 1, 1, 0, 8, 7)
    ensures Start(file, e).Some? && Plain(file, c, e) == [7, 8] && [7, 8][0..1] == [7]
    ensures Intact(file, c, e) && Sum(0, Plain(file, c, e)[..1]) == 7
  {
    assert Packed(file, 1, 1) == [0];
    SmallIntact(file, c, e);
    assert Plain(file, c, e)[..1] == [7];
    assert Sum(0, [7]) == 7;
  }

  lemma ExtraByteSeen(file: seq<Byte>, c: Codec, update: (nat, seq<Byte>) -> nat, e: Entry, s: Session)
    requires file == [0, 0] && c == Constant([7, 8], 1) && e == Entry(1, 1, 1, 0, 8, 7)
    requires Faithful(file, c, update, e, s) && s.outPos == 1
    ensures EndSeen(file, c, s)
  {
    assert s.fed != [];
    assert |s.fed + s.pending| <= 1;
    assert s.pending == [] && s.compLeft == 0;
    assert s.fed + [] == s.fed;
  }

  /** A member that is as its index entry says, with more than a buffer of empty blocks before
      the end of its stream, is refused. */
  method LateEndRefused() returns (b: ZipBackend, e: Entry, r: Option<seq<Byte>>)
    ensures Exact(b.file, b.codec, b.update, e) && b.codec.ended(Packed(b.file, 1, e.packedSize)) && e.method_ != STORED
    ensures r == None
  {
    hide Faithful, EndSeen, EndsSoon, Intact, Drained, Lawful;
    b, e := Backend(600000, 600000, [7]);
    ghost var probe;
    assert |Packed(b.file, 1, 600000)| == 600000;
    assert Plain(b.file, b.codec, e) == [7];
    SmallIntact(b.file, b.codec, e);
    assert Sum(0, [7]) == 7;
    EndsLate(b.file, b.codec, e);
    r, probe := b.ExtractRange(e, 0, 1);
  }

  lemma EndsLate(file: seq<Byte>, c: Codec, e: Entry)
    requires |file| == 600001 && c == Constant([7], 600000) && e == Entry(1, 600000, 1, 0, 8, 7)
    ensures !EndsSoon(file, c, e)
  {
    assert Packed(file, 1, 0) == [];
    assert |Packed(file, 1, INPUT_SIZE)| == INPUT_SIZE;
    assert Needed(file, c, e, 1, INPUT_SIZE) == INPUT_SIZE;
    assert Needed(file, c, e, 1, 0) == INPUT_SIZE;
    assert |Packed(file, 1, 2 * INPUT_SIZE)| == 2 * INPUT_SIZE;
  }
}
