/** The on-disk cache of an archive's index: a little-endian record format, the writer that
    appends to a byte buffer and the cursor that reads it back.
 */
module IndexCache {
  import opened Basics
  import opened LittleEndian

  const MAX_ENTRIES: nat := 0x400_0000
  /** "DARIDX01" */
  const MAGIC: seq<Byte> := [0x44, 0x41, 0x52, 0x49, 0x44, 0x58, 0x30, 0x31]

  type U32 = x: nat | x < TWO32
  type U64 = x: nat | x < TWO64

  datatype Entry = Entry(path: seq<Byte>, size: U64, packedSize: U64, dataOffset: U64, extra: U64,
                         method_: U32, crc: U32)

  // ---- the writer ----------------------------------------------------------------

  /** Put32 and Put64: the buffer grows by the low `width` bytes of x. */
  method Put(v: seq<Byte>, x: nat, width: nat) returns (r: seq<Byte>)
    ensures r == v + Le(x, width)
  {
    r := v;
    for i := 0 to width
      invariant r == v + Le(x, width)[..i]
    {
      LeAt(x, width, i);
      assert Le(x, width)[..i + 1] == Le(x, width)[..i] + [Le(x, width)[i]];
      r := r + [Shifted(x, i) % 256];
    }
  }

  function Fields(e: Entry): seq<Byte> {
    Le(e.size, 8) + (Le(e.packedSize, 8) + (Le(e.dataOffset, 8) + (Le(e.extra, 8) + (Le(e.method_, 4) + Le(e.crc, 4)))))
  }

  /** A path length is stored in 32 bits, whatever the path's length is. */
  function Record(e: Entry): seq<Byte> {
    Le(|e.path| % TWO32, 4) + (e.path + Fields(e))
  }

  function Records(es: seq<Entry>): seq<Byte> {
    if es == [] then [] else Record(es[0]) + Records(es[1..])
  }

  function Saved(backend: seq<Byte>, es: seq<Entry>): seq<Byte> {
    MAGIC + (Le(|backend| % TWO32, 4) + (backend[..|backend| % TWO32] + (Le(|es|, 8) + Records(es))))
  }

  lemma {:induction false} RecordsSnoc(es: seq<Entry>, e: Entry)
    ensures Records(es + [e]) == Records(es) + Record(e)
  {
    if es == [] {
      assert [e][1..] == [];
      assert Records([e]) == Record(e) + [];
    } else {
      assert (es + [e])[1..] == es[1..] + [e];
      RecordsSnoc(es[1..], e);
    }
  }

  method PutEntry(v: seq<Byte>, e: Entry) returns (buf: seq<Byte>)
    ensures buf == v + Record(e)
  {
    hide Le;
    buf := Put(v, |e.path| % TWO32, 4);
    buf := buf + e.path;
    buf := Put(buf, e.size, 8);
    buf := Put(buf, e.packedSize, 8);
    buf := Put(buf, e.dataOffset, 8);
    buf := Put(buf, e.extra, 8);
    buf := Put(buf, e.method_, 4);
    buf := Put(buf, e.crc, 4);
  }

  method Save(backend: seq<Byte>, entries: seq<Entry>) returns (buf: seq<Byte>)
    ensures buf == Saved(backend, entries)
  {
    hide Le, Record;
    buf := MAGIC;
    var nameLen := |backend| % TWO32;
    buf := Put(buf, nameLen, 4);
    buf := buf + backend[..nameLen];
    buf := Put(buf, |entries|, 8);
    ghost var head := buf;
    for i := 0 to |entries|
      invariant buf == head + Records(entries[..i])
    {
      assert entries[..i + 1] == entries[..i] + [entries[i]];
      RecordsSnoc(entries[..i], entries[i]);
      buf := PutEntry(buf, entries[i]);
    }
    assert entries[..|entries|] == entries;
  }

  // ---- the reader ----------------------------------------------------------------

  /** Parsing position: what is left of the bytes, or failure. */
  datatype Parsed<T> = Fail | Done(value: T, next: nat)

  function Number(data: seq<Byte>, p: nat, width: nat): Parsed<nat> {
    if p + width > |data| then Fail else Done(FromLe(data[p..p + width]), p + width)
  }

  function Text(data: seq<Byte>, p: nat, n: nat): Parsed<seq<Byte>> {
    if p + n > |data| then Fail else Done(data[p..p + n], p + n)
  }

  /** The six numbers after the path, as one fixed-size group. */
  function ParseFields(data: seq<Byte>, p: nat, path: seq<Byte>): Parsed<Entry> {
    if p + 40 > |data| then Fail else
    FromLeBound(data[p..p + 8]);
    FromLeBound(data[p + 8..p + 16]);
    FromLeBound(data[p + 16..p + 24]);
    FromLeBound(data[p + 24..p + 32]);
    FromLeBound(data[p + 32..p + 36]);
    FromLeBound(data[p + 36..p + 40]);
    Widths();
    Done(Entry(path, FromLe(data[p..p + 8]), FromLe(data[p + 8..p + 16]), FromLe(data[p + 16..p + 24]),
               FromLe(data[p + 24..p + 32]), FromLe(data[p + 32..p + 36]), FromLe(data[p + 36..p + 40])), p + 40)
  }

  function ParseEntry(data: seq<Byte>, p: nat): Parsed<Entry> {
    match Number(data, p, 4)
    case Fail => Fail
    case Done(n, q) =>
      match Text(data, q, n)
      case Fail => Fail
      case Done(path, r) => ParseFields(data, r, path)
  }

  function ParseEntries(data: seq<Byte>, p: nat, count: nat): Parsed<seq<Entry>> {
    if count == 0 then Done([], p) else
    match ParseEntries(data, p, count - 1)
    case Fail => Fail
    case Done(es, q) =>
      match ParseEntry(data, q)
      case Fail => Fail
      case Done(e, r) => Done(es + [e], r)
  }

  function Loaded(data: seq<Byte>, backend: seq<Byte>): Parsed<seq<Entry>> {
    if |data| < 8 || data[..8] != MAGIC then Fail else
    match Number(data, 8, 4)
    case Fail => Fail
    case Done(n, p) =>
      match Text(data, p, n)
      case Fail => Fail
      case Done(name, q) =>
        if name != backend then Fail else
        match Number(data, q, 8)
        case Fail => Fail
        case Done(count, r) => if count > MAX_ENTRIES then Fail else ParseEntries(data, r, count)
  }

  class Reader {
    const data: seq<Byte>
    var p: nat
    var ok: bool

    ghost predicate Valid()
      reads this
    {
      p <= |data|
    }

    constructor (bytes: seq<Byte>)
      ensures Valid() && data == bytes && p == 0 && ok
    {
      data, p, ok := bytes, 0, true;
    }

    /** U32v and U64v. A failed read leaves the position alone and the flag down for good. */
    method Take(width: nat) returns (x: nat)
      requires Valid()
      modifies this
      ensures Valid() && old(p) <= p
      ensures match Number(data, old(p), width)
              case Fail => !ok && p == old(p) && x == 0
              case Done(v, q) => ok == old(ok) && p == q && x == v
      ensures x < Scaled(1, width)
    {
      if p + width > |data| {
        ok := false;
        ScaledPositive(width);
        return 0;
      }
      x := 0;
      for i := 0 to width
        invariant p == old(p) && ok == old(ok) && p + width <= |data| && x == FromLe(data[p..p + i])
      {
        FromLeSnoc(data[p..p + i], data[p + i]);
        assert data[p..p + i + 1] == data[p..p + i] + [data[p + i]];
        x := x + Scaled(data[p + i], i);
      }
      FromLeBound(data[p..p + width]);
      p := p + width;
    }

    method Str(n: nat) returns (s: seq<Byte>)
      requires Valid()
      modifies this
      ensures Valid() && old(p) <= p
      ensures match Text(data, old(p), n)
              case Fail => !ok && p == old(p) && s == []
              case Done(v, q) => ok == old(ok) && p == q && s == v
    {
      if p + n > |data| {
        ok := false;
        return [];
      }
      s := data[p..p + n];
      p := p + n;
    }

    /** One record: the flag is looked at only after all eight reads. */
    method TakeEntry() returns (e: Entry)
      requires Valid() && ok
      modifies this
      ensures Valid()
      ensures match ParseEntry(data, old(p))
              case Fail => !ok
              case Done(v, q) => ok && p == q && e == v
    {
      hide FromLe, Scaled;
      Widths();
      var n := Take(4);
      var path := Str(n);
      ghost var q, fine := p, ok;
      var size := Take(8);
      var packedSize := Take(8);
      var dataOffset := Take(8);
      var extra := Take(8);
      var method_ := Take(4);
      var crc := Take(4);
      e := Entry(path, size, packedSize, dataOffset, extra, method_, crc);
      assert ok <==> fine && q + 40 <= |data|;
    }
  }

  /** LoadIndexCache on the bytes of the file. */
  method Load(buf: seq<Byte>, backend: seq<Byte>) returns (r: Option<seq<Entry>>)
    ensures r == match Loaded(buf, backend) case Fail => None case Done(es, p) => Some(es)
  {
    hide FromLe, Scaled, ParseEntry;
    if |buf| < 8 {
      return None;
    }
    var reader := new Reader(buf);
    if buf[..8] != MAGIC {
      return None;
    }
    reader.p := 8;
    var nameLen := reader.Take(4);
    if !reader.ok {
      return None;
    }
    var name := reader.Str(nameLen);
    if name != backend {
      return None;
    }
    var count := reader.Take(8);
    if !reader.ok || count > MAX_ENTRIES {
      return None;
    }
    ghost var start := reader.p;
    var out: seq<Entry> := [];
    for i := 0 to count
      invariant reader.Valid() && reader.ok && reader.data == buf && fresh(reader)
      invariant ParseEntries(buf, start, i) == Done(out, reader.p)
    {
      var e := reader.TakeEntry();
      if !reader.ok {
        StaysFailed(buf, start, i + 1, count);
        return None;
      }
      out := out + [e];
    }
    return Some(out);
  }

  lemma {:induction false} StaysFailed(data: seq<Byte>, p: nat, i: nat, count: nat)
    requires i <= count && ParseEntries(data, p, i) == Fail
    ensures ParseEntries(data, p, count) == Fail
    decreases count
  {
    if i < count {
      StaysFailed(data, p, i, count - 1);
    }
  }

  // ---- prefixes and extensions ---------------------------------------------------

  /** A record that parses does so whatever bytes follow, and ends inside the data. */
  lemma EntryStable(d: seq<Byte>, y: seq<Byte>, p: nat)
    requires ParseEntry(d, p).Done?
    ensures ParseEntry(d + y, p) == ParseEntry(d, p) && ParseEntry(d, p).next <= |d|
  {
    var n, q := Number(d, p, 4).value, p + 4;
    assert (d + y)[p..q] == d[p..q];
    assert (d + y)[q..q + n] == d[q..q + n];
    FieldsStable(d, y, q + n, d[q..q + n]);
  }

  lemma FieldsStable(d: seq<Byte>, y: seq<Byte>, p: nat, path: seq<Byte>)
    requires p + 40 <= |d|
    ensures ParseFields(d + y, p, path) == ParseFields(d, p, path)
  {
    hide FromLe;
    var x := d + y;
    assert x[p..p + 8] == d[p..p + 8] && x[p + 8..p + 16] == d[p + 8..p + 16];
    assert x[p + 16..p + 24] == d[p + 16..p + 24] && x[p + 24..p + 32] == d[p + 24..p + 32];
    assert x[p + 32..p + 36] == d[p + 32..p + 36] && x[p + 36..p + 40] == d[p + 36..p + 40];
  }

  lemma {:induction false} EntriesStable(d: seq<Byte>, y: seq<Byte>, p: nat, count: nat)
    requires ParseEntries(d, p, count).Done? && p <= |d|
    ensures ParseEntries(d + y, p, count) == ParseEntries(d, p, count) && ParseEntries(d, p, count).next <= |d|
  {
    hide ParseEntry;
    if count > 0 {
      EntriesStable(d, y, p, count - 1);
      EntryStable(d, y, ParseEntries(d, p, count - 1).next);
    }
  }

  /** Bytes after the last record change nothing. */
  lemma LoadedStable(d: seq<Byte>, y: seq<Byte>, backend: seq<Byte>)
    requires Loaded(d, backend).Done?
    ensures Loaded(d + y, backend) == Loaded(d, backend) && Loaded(d, backend).next <= |d|
  {
    hide ParseEntries, FromLe;
    assert (d + y)[..8] == d[..8];
    assert (d + y)[8..12] == d[8..12];
    var q := 12 + Number(d, 8, 4).value;
    assert (d + y)[12..q] == d[12..q];
    assert (d + y)[q..q + 8] == d[q..q + 8];
    EntriesStable(d, y, q + 8, Number(d, q, 8).value);
  }

  // ---- round trip ----------------------------------------------------------------

  /** data holds `part` at position p. */
  ghost predicate At(data: seq<Byte>, p: nat, part: seq<Byte>) {
    p + |part| <= |data| && data[p..p + |part|] == part
  }

  lemma AtSplit(data: seq<Byte>, p: nat, x: seq<Byte>, y: seq<Byte>)
    requires At(data, p, x + y)
    ensures At(data, p, x) && At(data, p + |x|, y)
  {
    var whole := data[p..p + |x + y|];
    assert data[p..p + |x|] == whole[..|x|];
    assert data[p + |x|..p + |x| + |y|] == whole[|x|..];
  }

  lemma AtNumber(data: seq<Byte>, p: nat, x: nat, width: nat)
    requires At(data, p, Le(x, width)) && ((width == 4 && x < TWO32) || (width == 8 && x < TWO64))
    ensures Number(data, p, width) == Done(x, p + width)
  {
    Fits(x);
  }

  lemma FieldsParse(data: seq<Byte>, p: nat, e: Entry)
    requires At(data, p, Fields(e))
    ensures ParseFields(data, p, e.path) == Done(e, p + 40)
  {
    hide Le, FromLe;
    var tail4 := Le(e.method_, 4) + Le(e.crc, 4);
    var tail3 := Le(e.extra, 8) + tail4;
    var tail2 := Le(e.dataOffset, 8) + tail3;
    var tail1 := Le(e.packedSize, 8) + tail2;
    AtSplit(data, p, Le(e.size, 8), tail1);
    AtSplit(data, p + 8, Le(e.packedSize, 8), tail2);
    AtSplit(data, p + 16, Le(e.dataOffset, 8), tail3);
    AtSplit(data, p + 24, Le(e.extra, 8), tail4);
    AtSplit(data, p + 32, Le(e.method_, 4), Le(e.crc, 4));
    AtNumber(data, p, e.size, 8);
    AtNumber(data, p + 8, e.packedSize, 8);
    AtNumber(data, p + 16, e.dataOffset, 8);
    AtNumber(data, p + 24, e.extra, 8);
    AtNumber(data, p + 32, e.method_, 4);
    AtNumber(data, p + 36, e.crc, 4);
  }

  lemma RecordParses(data: seq<Byte>, p: nat, e: Entry)
    requires At(data, p, Record(e)) && |e.path| < TWO32
    ensures ParseEntry(data, p) == Done(e, p + |Record(e)|)
  {
    hide Le, FromLe, ParseFields, Fields;
    assert |e.path| % TWO32 == |e.path|;
    AtSplit(data, p, Le(|e.path|, 4), e.path + Fields(e));
    AtSplit(data, p + 4, e.path, Fields(e));
    AtNumber(data, p, |e.path|, 4);
    FieldsParse(data, p + 4 + |e.path|, e);
    FieldsSize(e);
  }

  lemma FieldsSize(e: Entry)
    ensures |Fields(e)| == 40
  {
  }

  ghost predicate ShortPaths(es: seq<Entry>) {
    forall i :: 0 <= i < |es| ==> |es[i].path| < TWO32
  }

  lemma {:induction false} RecordsParse(data: seq<Byte>, p: nat, es: seq<Entry>)
    requires At(data, p, Records(es)) && ShortPaths(es)
    ensures ParseEntries(data, p, |es|) == Done(es, p + |Records(es)|)
  {
    hide Record, ParseEntry;
    if es != [] {
      var front, e := es[..|es| - 1], es[|es| - 1];
      assert es == front + [e];
      RecordsSnoc(front, e);
      AtSplit(data, p, Records(front), Record(e));
      RecordsParse(data, p, front);
      RecordParses(data, p + |Records(front)|, e);
    }
  }

  lemma SavedParses(backend: seq<Byte>, es: seq<Entry>)
    requires |backend| < TWO32 && |es| <= MAX_ENTRIES && ShortPaths(es)
    ensures Loaded(Saved(backend, es), backend) == Done(es, |Saved(backend, es)|)
  {
    hide Le, FromLe, Records, ParseEntries, ShortPaths;
    var data := Saved(backend, es);
    HeaderParses(backend, es);
    RecordsParse(data, 20 + |backend|, es);
  }

  /** The header of the saved bytes: the backend's name and the number of entries. */
  lemma HeaderParses(backend: seq<Byte>, es: seq<Entry>)
    requires |backend| < TWO32 && |es| < TWO64
    ensures var data := Saved(backend, es);
            && |data| >= 8 && data[..8] == MAGIC
            && Number(data, 8, 4) == Done(|backend|, 12)
            && Text(data, 12, |backend|) == Done(backend, 12 + |backend|)
            && Number(data, 12 + |backend|, 8) == Done(|es|, 20 + |backend|)
            && At(data, 20 + |backend|, Records(es)) && |data| == 20 + |backend| + |Records(es)|
  {
    hide Le, FromLe, Records;
    var data := Saved(backend, es);
    assert |backend| % TWO32 == |backend| && backend[..|backend|] == backend;
    var tail2 := Le(|es|, 8) + Records(es);
    var tail1 := backend + tail2;
    assert data == MAGIC + (Le(|backend|, 4) + tail1);
    assert At(data, 0, data);
    AtSplit(data, 0, MAGIC, Le(|backend|, 4) + tail1);
    AtSplit(data, 8, Le(|backend|, 4), tail1);
    AtSplit(data, 12, backend, tail2);
    AtSplit(data, 12 + |backend|, Le(|es|, 8), Records(es));
    AtNumber(data, 8, |backend|, 4);
    AtNumber(data, 12 + |backend|, |es|, 8);
  }

  /** Loading what was saved returns the same list, up to the reader's limit on the number
      of entries and never beyond it. */
  lemma RoundTrip(backend: seq<Byte>, es: seq<Entry>)
    requires |backend| < TWO32 && |es| < TWO64 && ShortPaths(es)
    ensures var r := Loaded(Saved(backend, es), backend);
            if |es| <= MAX_ENTRIES then r == Done(es, |Saved(backend, es)|) else r == Fail
  {
    hide Le, FromLe, Records, ParseEntries, ShortPaths, Saved;
    if |es| <= MAX_ENTRIES {
      SavedParses(backend, es);
    } else {
      HeaderParses(backend, es);
    }
  }

  /** A file cut short anywhere is rejected, under every backend name. */
  lemma PrefixRejected(backend: seq<Byte>, es: seq<Entry>, k: nat, name: seq<Byte>)
    requires |backend| < TWO32 && |es| < TWO64 && ShortPaths(es) && k < |Saved(backend, es)|
    ensures Loaded(Saved(backend, es)[..k], name) == Fail
  {
    hide Le, FromLe, Records, ParseEntries, ShortPaths, Saved, Loaded;
    var whole := Saved(backend, es);
    if Loaded(whole[..k], name).Done? {
      assert whole[..k] + whole[k..] == whole;
      LoadedStable(whole[..k], whole[k..], name);
      OwnName(backend, es, name);
      RoundTrip(backend, es);
    }
  }

  /** Only the backend that saved an index loads it. */
  lemma OwnName(backend: seq<Byte>, es: seq<Entry>, name: seq<Byte>)
    requires |backend| < TWO32 && |es| < TWO64 && Loaded(Saved(backend, es), name).Done?
    ensures name == backend
  {
    hide Le, FromLe, Records, ParseEntries, Saved;
    HeaderParses(backend, es);
  }

  /** Different indexes never share a file. */
  lemma SavedInjective(backend: seq<Byte>, es: seq<Entry>, name: seq<Byte>, fs: seq<Entry>)
    requires |backend| < TWO32 && |es| <= MAX_ENTRIES && ShortPaths(es)
    requires |name| < TWO32 && |fs| <= MAX_ENTRIES && ShortPaths(fs)
    requires Saved(backend, es) == Saved(name, fs)
    ensures backend == name && es == fs
  {
    hide Le, FromLe, Records, ParseEntries, ShortPaths, Saved, Loaded;
    RoundTrip(backend, es);
    RoundTrip(name, fs);
    OwnName(backend, es, name);
  }
}
