/** AES-XTS sectors of a package image: each cipher block is masked with its tweak before and
    after the cipher, sectors are decrypted in place. The block cipher is a parameter.
 */
module XtsSectors {
  import opened Basics
  import opened LittleEndian
  import opened XtsTweaks

  type Bytes = seq<bv8>

  /** Byte i of s, zero outside it. */
  function At(s: Bytes, i: nat): bv8 {
    if i < |s| then s[i] else 0
  }

  /** The cipher under the tweak key and, both ways, under the data key. */
  datatype Keys = Keys(tweak: Bytes -> Bytes, enc: Bytes -> Bytes, dec: Bytes -> Bytes)

  ghost predicate Lawful(k: Keys) {
    && (forall x: Bytes :: |x| == 16 ==> |k.tweak(x)| == 16)
    && (forall x: Bytes :: |x| == 16 ==> |k.enc(x)| == 16 && k.dec(k.enc(x)) == x)
    && (forall x: Bytes :: |x| == 16 ==> |k.dec(x)| == 16 && k.enc(k.dec(x)) == x)
  }

  function Xor(x: Bytes, t: Bytes): (r: Bytes)
    ensures |r| == |x|
  {
    seq(|x|, i requires 0 <= i < |x| => x[i] ^ At(t, i))
  }

  lemma XorTwice(x: Bytes, t: Bytes)
    ensures Xor(Xor(x, t), t) == x
  {
    forall i | 0 <= i < |x| ensures Xor(Xor(x, t), t)[i] == x[i] {
      BitsXor(x[i], At(t, i));
    }
  }

  lemma BitsXor(a: bv8, b: bv8)
    ensures (a ^ b) ^ b == a
  {
  }

  function DecBlock(k: Keys, t: Bytes, x: Bytes): Bytes {
    Xor(k.dec(Xor(x, t)), t)
  }

  function EncBlock(k: Keys, t: Bytes, x: Bytes): Bytes {
    Xor(k.enc(Xor(x, t)), t)
  }

  /** In the words of the standard: the block and its decryption, both masked with the tweak,
      are ciphertext and plaintext of the cipher. */
  lemma DecBlockIs(k: Keys, t: Bytes, x: Bytes)
    requires Lawful(k) && |x| == 16 && |t| == 16
    ensures var p := DecBlock(k, t, x);
            var masked := seq(16, i requires 0 <= i < 16 => x[i] ^ t[i]);
            && |p| == 16 && seq(16, i requires 0 <= i < 16 && |p| == 16 => p[i] ^ t[i]) == k.dec(masked)
            && k.enc(k.dec(masked)) == masked
  {
    hide Xor;
    var masked := seq(16, i requires 0 <= i < 16 => x[i] ^ t[i]);
    XorIs(x, t);
    XorIs(DecBlock(k, t, x), t);
    XorTwice(k.dec(masked), t);
  }

  lemma XorIs(x: Bytes, t: Bytes)
    requires |x| == 16 && |t| == 16
    ensures Xor(x, t) == seq(16, i requires 0 <= i < 16 => x[i] ^ t[i])
  {
  }

  /** A run of cipher blocks, the first under tweak t, each next under the doubled tweak. */
  function Decrypted(k: Keys, t: Bytes, s: Bytes): Bytes
    decreases |s|
  {
    if |s| < 16 then [] else DecBlock(k, t, s[..16]) + Decrypted(k, Doubled(t), s[16..])
  }

  function Encrypted(k: Keys, t: Bytes, s: Bytes): Bytes
    decreases |s|
  {
    if |s| < 16 then [] else EncBlock(k, t, s[..16]) + Encrypted(k, Doubled(t), s[16..])
  }

  lemma BlockInverse(k: Keys, t: Bytes, x: Bytes)
    requires Lawful(k) && |x| == 16
    ensures |EncBlock(k, t, x)| == 16 && DecBlock(k, t, EncBlock(k, t, x)) == x
    ensures |DecBlock(k, t, x)| == 16 && EncBlock(k, t, DecBlock(k, t, x)) == x
  {
    hide Xor;
    XorTwice(x, t);
    XorTwice(k.enc(Xor(x, t)), t);
    XorTwice(k.dec(Xor(x, t)), t);
  }

  /** Decryption inverts encryption, whatever the tweak. */
  lemma {:induction false} DecryptInvertsEncrypt(k: Keys, t: Bytes, s: Bytes)
    requires Lawful(k) && |s| % 16 == 0
    ensures |Encrypted(k, t, s)| == |s| && Decrypted(k, t, Encrypted(k, t, s)) == s
    decreases |s|
  {
    hide EncBlock, DecBlock, Lawful, Doubled;
    if |s| >= 16 {
      var e, rest := EncBlock(k, t, s[..16]), Encrypted(k, Doubled(t), s[16..]);
      BlockInverse(k, t, s[..16]);
      DecryptInvertsEncrypt(k, Doubled(t), s[16..]);
      assert (e + rest)[..16] == e && (e + rest)[16..] == rest;
      assert s == s[..16] + s[16..];
    }
  }

  /** Encryption inverts decryption: no two sectors decrypt alike. */
  lemma {:induction false} EncryptInvertsDecrypt(k: Keys, t: Bytes, s: Bytes)
    requires Lawful(k) && |s| % 16 == 0
    ensures |Decrypted(k, t, s)| == |s| && Encrypted(k, t, Decrypted(k, t, s)) == s
    decreases |s|
  {
    hide EncBlock, DecBlock, Lawful, Doubled;
    if |s| >= 16 {
      var e, rest := DecBlock(k, t, s[..16]), Decrypted(k, Doubled(t), s[16..]);
      BlockInverse(k, t, s[..16]);
      EncryptInvertsDecrypt(k, Doubled(t), s[16..]);
      assert (e + rest)[..16] == e && (e + rest)[16..] == rest;
      assert s == s[..16] + s[16..];
    }
  }

  /** The tweak of block j: the first one doubled j times. */
  function TweakOf(t: Bytes, j: nat): Bytes {
    if j == 0 then t else Doubled(TweakOf(t, j - 1))
  }

  lemma {:induction false} TweakLater(t: Bytes, j: nat)
    ensures TweakOf(Doubled(t), j) == TweakOf(t, j + 1)
  {
    if j > 0 {
      TweakLater(t, j - 1);
    }
  }

  /** Block j of a sector is decrypted under the tweak times alpha^j and depends on nothing else. */
  lemma {:induction false} BlockOfDecrypted(k: Keys, t: Bytes, s: Bytes, j: nat)
    requires Lawful(k) && 16 * j + 16 <= |s|
    ensures 16 * j + 16 <= |Decrypted(k, t, s)|
    ensures Decrypted(k, t, s)[16 * j..16 * j + 16] == DecBlock(k, TweakOf(t, j), s[16 * j..16 * j + 16])
    decreases |s|
  {
    hide DecBlock, Lawful, Doubled;
    BlockInverse(k, t, s[..16]);
    var e, rest := DecBlock(k, t, s[..16]), Decrypted(k, Doubled(t), s[16..]);
    if j == 0 {
      assert s[0..16] == s[..16];
    } else {
      var i := j - 1;
      BlockOfDecrypted(k, Doubled(t), s[16..], i);
      TweakLater(t, i);
      assert s[16..][16 * i..16 * i + 16] == s[16 * j..16 * j + 16];
      assert (e + rest)[16 * j..16 * j + 16] == rest[16 * i..16 * i + 16];
    }
  }

  lemma {:induction false} TweakSize(t: Bytes, j: nat)
    requires |t| == 16
    ensures |TweakOf(t, j)| == 16
  {
    if j > 0 {
      TweakSize(t, j - 1);
    }
  }

  /** Consecutive tweaks differ by the factor alpha. */
  lemma TweakTimesAlpha(t: Bytes, j: nat)
    requires |t| == 16
    ensures IsTimesAlpha(Bits(TweakOf(t, j)), Bits(TweakOf(t, j + 1)))
  {
    TweakSize(t, j);
    DoubledIsTimesAlpha(TweakOf(t, j));
  }

  function Pack(a: bool, b: bool, c: bool, d: bool, e: bool, f: bool, g: bool, h: bool): bv8 {
    (if a then 1 else 0) | (if b then 2 else 0) | (if c then 4 else 0) | (if d then 8 else 0) |
    (if e then 16 else 0) | (if f then 32 else 0) | (if g then 64 else 0) | (if h then 128 else 0)
  }

  /** A number below 256 as a byte of the cipher. */
  function ToBv(x: Byte): bv8 {
    Pack(x % 2 == 1, x / 2 % 2 == 1, x / 2 / 2 % 2 == 1, x / 2 / 2 / 2 % 2 == 1,
         x / 2 / 2 / 2 / 2 % 2 == 1, x / 2 / 2 / 2 / 2 / 2 % 2 == 1,
         x / 2 / 2 / 2 / 2 / 2 / 2 % 2 == 1, x / 2 / 2 / 2 / 2 / 2 / 2 / 2 % 2 == 1)
  }

  function Twice(bit: bool, rest: nat): nat {
    (if bit then 1 else 0) + 2 * rest
  }

  function Number(a: bool, b: bool, c: bool, d: bool, e: bool, f: bool, g: bool, h: bool): Byte {
    Twice(a, Twice(b, Twice(c, Twice(d, Twice(e, Twice(f, Twice(g, Twice(h, 0))))))))
  }

  /** And back. */
  function ToByte(x: bv8): Byte {
    Number(Bit(x, 1), Bit(x, 2), Bit(x, 4), Bit(x, 8), Bit(x, 16), Bit(x, 32), Bit(x, 64), Bit(x, 128))
  }

  lemma PackBits(a: bool, b: bool, c: bool, d: bool, e: bool, f: bool, g: bool, h: bool)
    ensures var x := Pack(a, b, c, d, e, f, g, h);
            && Bit(x, 1) == a && Bit(x, 2) == b && Bit(x, 4) == c && Bit(x, 8) == d
            && Bit(x, 16) == e && Bit(x, 32) == f && Bit(x, 64) == g && Bit(x, 128) == h
  {
  }

  lemma Half(x: nat)
    ensures x == Twice(x % 2 == 1, x / 2)
  {
  }

  lemma SameByte(x: Byte)
    ensures ToByte(ToBv(x)) == x
  {
    hide Pack, Bit, Twice;
    var x1 := x / 2;
    var x2 := x1 / 2;
    var x3 := x2 / 2;
    var x4 := x3 / 2;
    assert x4 < 16;
    var x5 := x4 / 2;
    var x6 := x5 / 2;
    var x7 := x6 / 2;
    assert x7 < 2 && x7 / 2 == 0;
    PackBits(x % 2 == 1, x1 % 2 == 1, x2 % 2 == 1, x3 % 2 == 1, x4 % 2 == 1, x5 % 2 == 1, x6 % 2 == 1, x7 % 2 == 1);
    Half(x);
    Half(x1);
    Half(x2);
    Half(x3);
    Half(x4);
    Half(x5);
    Half(x6);
    Half(x7);
  }

  /** A run of bytes read as a number, lowest first. */
  function Value(b: Bytes): nat {
    FromLe(seq(|b|, i requires 0 <= i < |b| => ToByte(b[i])))
  }

  /** The sector number, lowest byte first, padded to a cipher block. */
  function Seed(si: nat): (r: Bytes)
    ensures |r| == 16
  {
    seq(16, i requires 0 <= i < 16 => if i < 8 then ToBv(Shifted(si, i) % 256) else 0)
  }

  /** b is the cipher block whose value is the 64-bit sector number. */
  predicate IsSectorNumber(b: Bytes, si: nat) {
    |b| == 16 && Value(b) == si % TWO64
  }

  /** The seed is the one cipher block that reads as the sector number: eight bytes of it,
      then zeros. */
  lemma SeedIsSectorNumber(si: nat)
    ensures IsSectorNumber(Seed(si), si) && Seed(si)[8..] == [0, 0, 0, 0, 0, 0, 0, 0]
    ensures forall b: Bytes :: IsSectorNumber(b, si) ==> b == Seed(si)
  {
    SeedValue(si);
    forall b: Bytes | IsSectorNumber(b, si) ensures b == Seed(si) {
      SameValue(b, Seed(si));
    }
  }

  /** The 64-bit sector number written into sixteen bytes. */
  function NumberBlock(si: nat): (r: Bytes)
    ensures |r| == 16
  {
    seq(16, i requires 0 <= i < 16 => ToBv(Le(si % TWO64, 16)[i]))
  }

  lemma SeedIsNumberBlock(si: nat)
    ensures NumberBlock(si) == Seed(si)
  {
    hide Seed, ToByte, ToBv, Le;
    var n, b := si % TWO64, NumberBlock(si);
    var x := seq(16, i requires 0 <= i < 16 => ToByte(b[i]));
    forall i | 0 <= i < 16 ensures x[i] == Le(n, 16)[i] {
      SameByte(Le(n, 16)[i]);
    }
    assert x == Le(n, 16);
    assert seq(|b|, i requires 0 <= i < |b| => ToByte(b[i])) == x;
    SixteenBytes(n);
    SeedIsSectorNumber(si);
    assert IsSectorNumber(b, si);
  }

  lemma SixteenBytes(n: nat)
    requires n < TWO64
    ensures FromLe(Le(n, 16)) == n
  {
    Widths();
    ScaledGrows(8, 16);
    ShiftedSmall(n, 16);
    FromLeLe(n, 16);
  }

  lemma {:induction false} ScaledGrows(m: nat, n: nat)
    requires m <= n
    ensures Scaled(1, m) <= Scaled(1, n)
  {
    if m < n {
      ScaledGrows(m, n - 1);
    }
  }

  lemma SeedValue(si: nat)
    ensures Value(Seed(si)) == si % TWO64
  {
    hide ToByte, ToBv, Le;
    var b := Seed(si);
    var x := seq(16, i requires 0 <= i < 16 => ToByte(b[i]));
    var low: seq<Byte> := Le(si, 8);
    forall i | 0 <= i < 16 ensures x[i] == if i < 8 then low[i] else 0 {
      if i < 8 {
        LeAt(si, 8, i);
        SameByte(Shifted(si, i) % 256);
      } else {
        ZeroByte();
      }
    }
    assert x == low + seq(8, i => 0);
    FromLeZeros(low, 8);
    LeModulo(si, 8);
    Widths();
    assert seq(|b|, i requires 0 <= i < |b| => ToByte(b[i])) == x;
  }

  lemma ZeroByte()
    ensures ToByte(0) == 0
  {
  }

  lemma SameValue(x: Bytes, y: Bytes)
    requires |x| == |y| && Value(x) == Value(y)
    ensures x == y
  {
    var a := seq(|x|, i requires 0 <= i < |x| => ToByte(x[i]));
    var b := seq(|y|, i requires 0 <= i < |y| => ToByte(y[i]));
    FromLeUnique(a, b);
    forall i | 0 <= i < |x| ensures x[i] == y[i] {
      assert a[i] == b[i];
      SameBits(x[i], y[i]);
    }
  }

  lemma SameBits(x: bv8, y: bv8)
    requires ToByte(x) == ToByte(y)
    ensures x == y
  {
    hide Bit;
    NumberUnique(Bit(x, 1), Bit(x, 2), Bit(x, 4), Bit(x, 8), Bit(x, 16), Bit(x, 32), Bit(x, 64), Bit(x, 128),
                 Bit(y, 1), Bit(y, 2), Bit(y, 4), Bit(y, 8), Bit(y, 16), Bit(y, 32), Bit(y, 64), Bit(y, 128));
    SameMasks(x, y);
  }

  lemma TwiceUnique(a: bool, x: nat, b: bool, y: nat)
    requires Twice(a, x) == Twice(b, y)
    ensures a == b && x == y
  {
  }

  lemma NumberUnique(a: bool, b: bool, c: bool, d: bool, e: bool, f: bool, g: bool, h: bool,
                     i: bool, j: bool, k: bool, l: bool, m: bool, n: bool, o: bool, p: bool)
    requires Number(a, b, c, d, e, f, g, h) == Number(i, j, k, l, m, n, o, p)
    ensures a == i && b == j && c == k && d == l && e == m && f == n && g == o && h == p
  {
    hide Twice;
    var x7, y7 := Twice(h, 0), Twice(p, 0);
    var x6, y6 := Twice(g, x7), Twice(o, y7);
    var x5, y5 := Twice(f, x6), Twice(n, y6);
    var x4, y4 := Twice(e, x5), Twice(m, y5);
    var x3, y3 := Twice(d, x4), Twice(l, y4);
    var x2, y2 := Twice(c, x3), Twice(k, y3);
    var x1, y1 := Twice(b, x2), Twice(j, y2);
    TwiceUnique(a, x1, i, y1);
    TwiceUnique(b, x2, j, y2);
    TwiceUnique(c, x3, k, y3);
    TwiceUnique(d, x4, l, y4);
    TwiceUnique(e, x5, m, y5);
    TwiceUnique(f, x6, n, y6);
    TwiceUnique(g, x7, o, y7);
    TwiceUnique(h, 0, p, 0);
  }

  lemma SameMasks(x: bv8, y: bv8)
    requires Bit(x, 1) == Bit(y, 1) && Bit(x, 2) == Bit(y, 2) && Bit(x, 4) == Bit(y, 4) && Bit(x, 8) == Bit(y, 8)
    requires Bit(x, 16) == Bit(y, 16) && Bit(x, 32) == Bit(y, 32) && Bit(x, 64) == Bit(y, 64) && Bit(x, 128) == Bit(y, 128)
    ensures x == y
  {
  }

  /** Block b of the buffer under the current tweak, in place. */
  method DecryptBlock(k: Keys, buf: array<bv8>, b: nat, tweak: array<bv8>)
    requires Lawful(k) && tweak.Length == 16 && b + 16 <= buf.Length && buf != tweak
    modifies buf
    ensures buf[..] == old(buf[..b]) + DecBlock(k, tweak[..], old(buf[b..b + 16])) + old(buf[b + 16..])
  {
    hide Lawful;
    var x := LoadXor(buf, b, tweak);
    DecSize(k, x);
    StoreXor(buf, b, k.dec(x), tweak);
  }

  lemma DecSize(k: Keys, x: Bytes)
    requires Lawful(k) && |x| == 16
    ensures |k.dec(x)| == 16
  {
  }

  method LoadXor(buf: array<bv8>, b: nat, tweak: array<bv8>) returns (x: Bytes)
    requires tweak.Length == 16 && b + 16 <= buf.Length
    ensures x == Xor(buf[b..b + 16], tweak[..])
  {
    x := [];
    for i := 0 to 16
      invariant |x| == i && forall j :: 0 <= j < i ==> x[j] == buf[b + j] ^ tweak[j]
    {
      x := x + [buf[b + i] ^ tweak[i]];
    }
  }

  method StoreXor(buf: array<bv8>, b: nat, p: Bytes, tweak: array<bv8>)
    requires tweak.Length == 16 == |p| && b + 16 <= buf.Length && buf != tweak
    modifies buf
    ensures buf[..] == old(buf[..b]) + Xor(p, tweak[..]) + old(buf[b + 16..])
  {
    ghost var was := buf[..];
    ghost var out := Xor(p, tweak[..]);
    for i := 0 to 16
      invariant forall j :: 0 <= j < i ==> buf[b + j] == out[j]
      invariant forall j :: 0 <= j < buf.Length && !(b <= j < b + i) ==> buf[j] == was[j]
    {
      buf[b + i] := p[i] ^ tweak[i];
    }
    ThreeParts(buf[..], was, out, b);
  }

  lemma ThreeParts(now: Bytes, was: Bytes, out: Bytes, b: nat)
    requires |now| == |was| && b + |out| <= |now|
    requires forall j :: 0 <= j < |out| ==> now[b + j] == out[j]
    requires forall j :: 0 <= j < |now| && !(b <= j < b + |out|) ==> now[j] == was[j]
    ensures now == was[..b] + out + was[b + |out|..]
  {
    var s := was[..b] + out + was[b + |out|..];
    forall j | 0 <= j < |now| ensures now[j] == s[j] {
      if b <= j < b + |out| {
        assert now[b + (j - b)] == out[j - b];
      }
    }
  }

  /** One sector, in place. */
  method DecryptSector(k: Keys, si: nat, buf: array<bv8>)
    requires Lawful(k) && buf.Length % 16 == 0
    modifies buf
    ensures buf[..] == Decrypted(k, k.tweak(NumberBlock(si)), old(buf[..]))
  {
    hide *;
    SeedIsNumberBlock(si);
    ghost var was := buf[..];
    var seed := Seed(si);
    var first := k.tweak(seed);
    FirstTweak(k, si);
    var tweak := new bv8[16](i requires 0 <= i < 16 => first[i]);
    assert tweak[..] == first;
    var b := 0;
    SectorStart(k, first, was);
    while b < buf.Length
      invariant b <= buf.Length && b % 16 == 0 && fresh(tweak)
      invariant Underway(k, first, was, buf[..], b, tweak[..])
    {
      ghost var before, t := buf[..], tweak[..];
      assert buf[..b] == before[..b] && buf[b..b + 16] == before[b..b + 16] && buf[b + 16..] == before[b + 16..];
      DecryptBlock(k, buf, b, tweak);
      SectorStep(k, first, was, before, b, t);
      Double(tweak);
      b := b + 16;
    }
    SectorDone(k, first, was, buf[..], b, tweak[..]);
  }

  lemma FirstTweak(k: Keys, si: nat)
    requires Lawful(k)
    ensures |k.tweak(Seed(si))| == 16
  {
  }

  /** The sector loop half-way: b bytes are decrypted, and t is the tweak of the next block. */
  ghost predicate Underway(k: Keys, first: Bytes, was: Bytes, now: Bytes, b: nat, t: Bytes) {
    && b <= |now| == |was| && now[b..] == was[b..]
    && Decrypted(k, first, was) == now[..b] + Decrypted(k, t, was[b..])
  }

  lemma SectorStart(k: Keys, first: Bytes, was: Bytes)
    ensures Underway(k, first, was, was, 0, first)
  {
    hide Decrypted;
    assert was[0..] == was;
  }

  lemma SectorStep(k: Keys, first: Bytes, was: Bytes, now: Bytes, b: nat, t: Bytes)
    requires Lawful(k) && Underway(k, first, was, now, b, t) && b + 16 <= |now|
    ensures Underway(k, first, was, now[..b] + DecBlock(k, t, now[b..b + 16]) + now[b + 16..], b + 16, Doubled(t))
  {
    hide Decrypted, DecBlock, Doubled, Lawful;
    var rest := was[b..];
    var p := DecBlock(k, t, rest[..16]);
    BlockSize(k, t, rest[..16]);
    DecryptedStep(k, t, rest);
    assert now[b..b + 16] == now[b..][..16] == rest[..16];
    assert now[b + 16..] == now[b..][16..] == was[b + 16..];
    assert rest[16..] == was[b + 16..];
    var after := now[..b] + p + now[b + 16..];
    assert after[..b + 16] == now[..b] + p;
    assert after[b + 16..] == now[b + 16..];
  }

  lemma SectorDone(k: Keys, first: Bytes, was: Bytes, now: Bytes, b: nat, t: Bytes)
    requires Underway(k, first, was, now, b, t) && b == |now|
    ensures now == Decrypted(k, first, was)
  {
    DecryptedDone(k, t, was[b..]);
    assert now[..b] == now;
  }

  lemma BlockSize(k: Keys, t: Bytes, x: Bytes)
    requires Lawful(k) && |x| == 16
    ensures |DecBlock(k, t, x)| == 16
  {
  }

  lemma DecryptedStep(k: Keys, t: Bytes, s: Bytes)
    requires |s| >= 16
    ensures Decrypted(k, t, s) == DecBlock(k, t, s[..16]) + Decrypted(k, Doubled(t), s[16..])
  {
  }

  lemma DecryptedDone(k: Keys, t: Bytes, s: Bytes)
    requires s == []
    ensures Decrypted(k, t, s) == []
  {
  }
}
