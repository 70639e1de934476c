/** Where a ZIP member lies in its archive, against a writer of local headers that knows
    nothing of the reader.
 */
module ZipLayout {
  import opened Basics
  import opened LittleEndian
  import opened ZipDecoding

  /** "PK" 3 4 */
  const SIGNATURE: seq<Byte> := [0x50, 0x4b, 0x03, 0x04]

  /** A local header: the signature, 22 bytes of fields that do not matter here, and the
      lengths of the name and of the extra field that follow it. */
  function LocalHeader(fields: seq<Byte>, name: seq<Byte>, extra: seq<Byte>): seq<Byte> {
    SIGNATURE + fields + Le(|name|, 2) + Le(|extra|, 2)
  }

  function Member(fields: seq<Byte>, name: seq<Byte>, extra: seq<Byte>, packed: seq<Byte>): seq<Byte> {
    LocalHeader(fields, name, extra) + name + extra + packed
  }

  lemma Rd16Is(b: seq<Byte>, at: nat)
    requires at + 2 <= |b|
    ensures Rd16(b, at) == FromLe(b[at..at + 2])
  {
    var x := b[at..at + 2];
    assert x[1..][1..] == [];
    assert FromLe(x[1..]) == x[1] + 256 * FromLe(x[1..][1..]);
    assert FromLe(x) == x[0] + 256 * FromLe(x[1..]);
  }

  lemma Written16(b: seq<Byte>, at: nat, x: nat)
    requires at + 2 <= |b| && x < 65536 && b[at..at + 2] == Le(x, 2)
    ensures Rd16(b, at) == x
  {
    Rd16Is(b, at);
    assert Scaled(1, 2) == 65536;
    ShiftedSmall(x, 2);
    FromLeLe(x, 2);
  }

  /** A header is accepted if and only if it is there in full and begins with the signature. */
  lemma SignatureExact(file: seq<Byte>, at: nat)
    ensures LocalStart(file, at).Some? <==> at + 30 <= |file| && file[at..at + 4] == SIGNATURE
  {
    if at + 30 <= |file| {
      var h := file[at..at + 30];
      assert h[0] == file[at] && h[1] == file[at + 1] && h[2] == file[at + 2] && h[3] == file[at + 3];
      assert Rd16(h, 0) + 65536 * Rd16(h, 2) == LOCAL_SIGNATURE <==> [h[0], h[1], h[2], h[3]] == SIGNATURE;
      assert file[at..at + 4] == [h[0], h[1], h[2], h[3]];
    }
  }

  lemma HeaderParts(fields: seq<Byte>, name: seq<Byte>, extra: seq<Byte>)
    requires |fields| == 22 && |name| < 65536 && |extra| < 65536
    ensures var h := LocalHeader(fields, name, extra);
            |h| == 30 && h[..4] == SIGNATURE && Rd16(h, 26) == |name| && Rd16(h, 28) == |extra|
  {
    hide Le;
    var h := LocalHeader(fields, name, extra);
    assert h[26..28] == Le(|name|, 2) && h[28..30] == Le(|extra|, 2);
    Written16(h, 26, |name|);
    Written16(h, 28, |extra|);
  }

  /** Wherever a member is written, the reader finds its packed bytes: by the header offset
      alone, or by the data offset if the index already knows it. */
  lemma PackedIsFound(before: seq<Byte>, fields: seq<Byte>, name: seq<Byte>, extra: seq<Byte>, packed: seq<Byte>,
                      after: seq<Byte>, e: Entry)
    requires |fields| == 22 && |name| < 65536 && |extra| < 65536
    requires e.extra == |before| && e.packedSize == |packed|
    requires e.dataOffset == 0 || e.dataOffset == |before| + 30 + |name| + |extra|
    ensures var file := before + Member(fields, name, extra, packed) + after;
            && Start(file, e) == Some(|before| + 30 + |name| + |extra|)
            && Packed(file, Start(file, e).value, e.packedSize) == packed
            && forall c: Codec :: Plain(file, c, e) == c.decode(packed)
  {
    hide LocalStart, LocalHeader;
    var h, at := LocalHeader(fields, name, extra), |before|;
    var file := before + Member(fields, name, extra, packed) + after;
    HeaderParts(fields, name, extra);
    assert file == before + (h + (name + (extra + (packed + after))));
    HeaderFound(before, h, name + (extra + (packed + after)), |name|, |extra|);
    var start := at + 30 + |name| + |extra|;
    assert file == (before + h + name + extra) + packed + after;
    MiddleIs(before + h + name + extra, packed, after);
    assert Packed(file, start, |packed|) == file[start..start + |packed|];
  }

  lemma MiddleIs(x: seq<Byte>, y: seq<Byte>, z: seq<Byte>)
    ensures (x + y + z)[|x|..|x| + |y|] == y
  {
  }

  lemma HeaderFound(before: seq<Byte>, h: seq<Byte>, rest: seq<Byte>, n: nat, m: nat)
    requires |h| == 30 && h[..4] == SIGNATURE && Rd16(h, 26) == n && Rd16(h, 28) == m
    ensures LocalStart(before + (h + rest), |before|) == Some(|before| + 30 + n + m)
  {
    hide Rd16;
    var file, at := before + (h + rest), |before|;
    assert file[at..at + 30] == h;
    assert file[at..at + 4] == h[..4];
    SignatureExact(file, at);
  }
}
