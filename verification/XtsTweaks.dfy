/** The tweak of AES-XTS: sixteen bytes that are doubled in the field GF(2^128) from one
    cipher block to the next (section 5.2 of IEEE Std 1619-2007). The byte loop is compared
    with polynomials over GF(2), kept as their coefficients, lowest first.
 */
module XtsTweaks {
  type Poly = seq<bool>

  predicate Bit(b: bv8, mask: bv8) { b & mask != 0 }

  function Eight(a: bool, b: bool, c: bool, d: bool, e: bool, f: bool, g: bool, h: bool): (r: Poly)
    ensures |r| == 8 && r[7] == h
  {
    [a, b, c, d, e, f, g, h]
  }

  lemma EightShift(z: bool, a: bool, b: bool, c: bool, d: bool, e: bool, f: bool, g: bool, h: bool)
    ensures Eight(z, a, b, c, d, e, f, g) == [z] + Eight(a, b, c, d, e, f, g, h)[..7]
  {
    var x, y := Eight(z, a, b, c, d, e, f, g), Eight(a, b, c, d, e, f, g, h);
    assert y[..7] == [a, b, c, d, e, f, g];
  }

  lemma EightReduce(a: bool, b: bool, c: bool, d: bool, e: bool, f: bool, g: bool, h: bool)
    ensures Eight(!a, !b, !c, d, e, f, g, !h) ==
            Plus(Eight(a, b, c, d, e, f, g, h), Eight(true, true, true, false, false, false, false, true))
  {
  }

  /** The coefficients a byte holds. */
  function Bits8(b: bv8): (r: Poly)
    ensures |r| == 8
  {
    Eight(Bit(b, 1), Bit(b, 2), Bit(b, 4), Bit(b, 8), Bit(b, 16), Bit(b, 32), Bit(b, 64), Bit(b, 128))
  }

  function Bits(s: seq<bv8>): (r: Poly)
    ensures |r| == 8 * |s|
  {
    if s == [] then [] else Bits8(s[0]) + Bits(s[1..])
  }

  /** Addition of polynomials. */
  function Plus(x: Poly, y: Poly): (r: Poly)
    requires |x| == |y|
    ensures |r| == |x|
  {
    seq(|x|, i requires 0 <= i < |x| => x[i] != y[i])
  }

  function Zero(n: nat): (r: Poly)
    ensures |r| == n
  {
    seq(n, i => false)
  }

  /** The field polynomial x^128 + x^7 + x^2 + x + 1. */
  function Modulus(): (r: Poly)
    ensures |r| == 129
  {
    Eight(true, true, true, false, false, false, false, true) + Zero(120) + [true]
  }

  /** The field polynomial times the constant q. */
  function Multiple(q: bool): (r: Poly)
    ensures |r| == 129 && r[128] == q
  {
    if q then Modulus() else Zero(129)
  }

  /** t has degree below 128 and differs from x*p by a multiple of the field polynomial. */
  ghost predicate IsTimesAlpha(p: Poly, t: Poly) {
    && |p| == 128 && |t| == 128
    && exists q: bool :: Plus(t + [false], Multiple(q)) == [false] + p
  }

  function Shift(v: bv8, carry: bv8): bv8 { (v << 1) | carry }
  function Top(v: bv8): bv8 { v >> 7 }
  function Reduce(v: bv8): bv8 { v ^ 0x87 }

  /** Shifts every byte left by one, carrying the top bit into the next. */
  function ShiftIn(s: seq<bv8>, carry: bv8): (r: seq<bv8>)
    ensures |r| == |s|
  {
    if s == [] then [] else [Shift(s[0], carry)] + ShiftIn(s[1..], Top(s[0]))
  }

  function CarryOut(s: seq<bv8>, carry: bv8): bv8 {
    if s == [] then carry else CarryOut(s[1..], Top(s[0]))
  }

  /** The next tweak. */
  function Doubled(t: seq<bv8>): (r: seq<bv8>)
    ensures |r| == |t|
  {
    var s := ShiftIn(t, 0);
    if CarryOut(t, 0) != 0 && s != [] then s[0 := Reduce(s[0])] else s
  }

  lemma LowMasks(v: bv8, c: bv8)
    requires c <= 1
    ensures Bit(Shift(v, c), 1) == (c == 1)
    ensures Bit(Shift(v, c), 2) == Bit(v, 1)
    ensures Bit(Shift(v, c), 4) == Bit(v, 2)
    ensures Bit(Shift(v, c), 8) == Bit(v, 4)
  {
  }

  lemma HighMasks(v: bv8, c: bv8)
    requires c <= 1
    ensures Bit(Shift(v, c), 16) == Bit(v, 8)
    ensures Bit(Shift(v, c), 32) == Bit(v, 16)
    ensures Bit(Shift(v, c), 64) == Bit(v, 32)
    ensures Bit(Shift(v, c), 128) == Bit(v, 64)
  {
  }

  lemma TopMask(v: bv8)
    ensures Top(v) <= 1 && (Top(v) == 1 <==> Bit(v, 128))
  {
  }

  lemma ByteShift(v: bv8, carry: bv8)
    requires carry <= 1
    ensures Bits8(Shift(v, carry)) == [carry == 1] + Bits8(v)[..7]
    ensures Top(v) <= 1 && (Top(v) == 1 <==> Bits8(v)[7])
  {
    hide Shift, Top, Bit, Eight;
    LowMasks(v, carry);
    HighMasks(v, carry);
    TopMask(v);
    EightShift(carry == 1, Bit(v, 1), Bit(v, 2), Bit(v, 4), Bit(v, 8), Bit(v, 16), Bit(v, 32), Bit(v, 64), Bit(v, 128));
  }

  /** One byte of the loop: the carry enters below, the top coefficient leaves. */
  lemma ShiftOne(v: bv8, carry: bv8, rest: Poly, after: Poly, out: bool)
    requires carry <= 1 && [Top(v) == 1] + rest == after + [out]
    ensures [carry == 1] + (Bits8(v) + rest) == Bits8(Shift(v, carry)) + after + [out]
  {
    ByteShift(v, carry);
    hide Bits8, Shift, Top;
    var low := Bits8(v);
    assert low == low[..7] + [low[7]];
    assert [carry == 1] + (low + rest) == [carry == 1] + low[..7] + ([low[7]] + rest);
  }

  /** The byte loop multiplies by x. */
  lemma {:induction false} ShiftBits(s: seq<bv8>, carry: bv8)
    requires carry <= 1
    ensures CarryOut(s, carry) <= 1
    ensures [carry == 1] + Bits(s) == Bits(ShiftIn(s, carry)) + [CarryOut(s, carry) == 1]
    decreases |s|
  {
    hide Bits8, Shift, Top;
    if s != [] {
      TopMask(s[0]);
      ShiftBits(s[1..], Top(s[0]));
      var r := ShiftIn(s, carry);
      assert r[1..] == ShiftIn(s[1..], Top(s[0]));
      ShiftOne(s[0], carry, Bits(s[1..]), Bits(r[1..]), CarryOut(s, carry) == 1);
    }
  }

  lemma ReduceMasks(b: bv8)
    ensures Bit(Reduce(b), 1) == !Bit(b, 1)
    ensures Bit(Reduce(b), 2) == !Bit(b, 2)
    ensures Bit(Reduce(b), 4) == !Bit(b, 4)
    ensures Bit(Reduce(b), 8) == Bit(b, 8)
  {
  }

  lemma ReduceHighMasks(b: bv8)
    ensures Bit(Reduce(b), 16) == Bit(b, 16)
    ensures Bit(Reduce(b), 32) == Bit(b, 32)
    ensures Bit(Reduce(b), 64) == Bit(b, 64)
    ensures Bit(Reduce(b), 128) == !Bit(b, 128)
  {
  }

  lemma ReduceByte(b: bv8)
    ensures Bits8(Reduce(b)) == Plus(Bits8(b), Eight(true, true, true, false, false, false, false, true))
  {
    hide Reduce, Bit, Eight, Plus;
    ReduceMasks(b);
    ReduceHighMasks(b);
    EightReduce(Bit(b, 1), Bit(b, 2), Bit(b, 4), Bit(b, 8), Bit(b, 16), Bit(b, 32), Bit(b, 64), Bit(b, 128));
  }

  lemma ReduceBits(s: seq<bv8>)
    requires |s| == 16
    ensures Bits(s[0 := Reduce(s[0])]) + [false] == Plus(Bits(s) + [true], Modulus())
  {
    hide Bits8, Reduce;
    ReduceByte(s[0]);
    var r := s[0 := Reduce(s[0])];
    assert r[1..] == s[1..];
    var low, rest := Bits8(s[0]), Bits(s[1..]);
    assert Bits(s) == low + rest;
    assert Bits(r) == Bits8(Reduce(s[0])) + rest;
  }

  lemma PlusTwice(x: Poly, y: Poly)
    requires |x| == |y|
    ensures Plus(Plus(x, y), y) == x
  {
  }

  lemma PlusZero(x: Poly)
    ensures Plus(x, Zero(|x|)) == x
  {
  }

  /** Doubling a tweak is multiplication by alpha in GF(2^128). */
  lemma DoubledIsTimesAlpha(t: seq<bv8>)
    requires |t| == 16
    ensures IsTimesAlpha(Bits(t), Bits(Doubled(t)))
  {
    hide Bits8, Bits, Plus, Modulus, Zero, ShiftIn, CarryOut, Reduce;
    ShiftBits(t, 0);
    var s, top := ShiftIn(t, 0), CarryOut(t, 0) == 1;
    assert [false] + Bits(t) == Bits(s) + [top];
    if top {
      ReduceBits(s);
      PlusTwice(Bits(s) + [true], Modulus());
      assert Plus(Bits(Doubled(t)) + [false], Multiple(true)) == [false] + Bits(t);
    } else {
      PlusZero(Bits(s) + [false]);
      assert Doubled(t) == s;
      assert Plus(Bits(Doubled(t)) + [false], Multiple(false)) == [false] + Bits(t);
    }
  }

  /** Reduction is unique: the product has one representative of degree below 128. */
  lemma TimesAlphaUnique(p: Poly, t: Poly, u: Poly)
    requires IsTimesAlpha(p, t) && IsTimesAlpha(p, u)
    ensures t == u
  {
    var q: bool :| Plus(t + [false], Multiple(q)) == [false] + p;
    var r: bool :| Plus(u + [false], Multiple(r)) == [false] + p;
    TopCoefficient(p, t, q);
    TopCoefficient(p, u, r);
    var m := Multiple(q);
    PlusTwice(t + [false], m);
    PlusTwice(u + [false], m);
    assert t == (t + [false])[..128] && u == (u + [false])[..128];
  }

  lemma TopCoefficient(p: Poly, t: Poly, q: bool)
    requires |p| == 128 && |t| == 128
    requires Plus(t + [false], Multiple(q)) == [false] + p
    ensures q == p[127]
  {
    var m := Multiple(q);
    assert Plus(t + [false], m)[128] == ([false] + p)[128];
  }

  /** Byte k of the loop is done. */
  lemma ShiftNext(was: seq<bv8>, front: seq<bv8>, k: nat, carry: bv8)
    requires k < |was| && ShiftIn(was, 0) == front + ShiftIn(was[k..], carry)
    requires CarryOut(was, 0) == CarryOut(was[k..], carry)
    ensures ShiftIn(was, 0) == front + [Shift(was[k], carry)] + ShiftIn(was[k + 1..], Top(was[k]))
    ensures CarryOut(was, 0) == CarryOut(was[k + 1..], Top(was[k]))
  {
    hide Shift, Top;
    assert was[k..][1..] == was[k + 1..];
  }

  /** The byte loop, in place. */
  method ShiftBytes(t: array<bv8>) returns (carry: bv8)
    modifies t
    ensures t[..] == ShiftIn(old(t[..]), 0) && carry == CarryOut(old(t[..]), 0)
  {
    hide Shift, Top, ShiftIn, CarryOut;
    ghost var was := t[..];
    carry := 0;
    assert was[0..] == was;
    assert [] + ShiftIn(was, 0) == ShiftIn(was, 0);
    for k := 0 to t.Length
      invariant t[k..] == was[k..]
      invariant ShiftIn(was, 0) == t[..k] + ShiftIn(was[k..], carry)
      invariant CarryOut(was, 0) == CarryOut(was[k..], carry)
    {
      var v := t[k];
      assert v == t[k..][0] == was[k];
      ghost var front, back := t[..k], t[k + 1..];
      ShiftNext(was, front, k, carry);
      t[k] := Shift(v, carry);
      assert t[..k + 1] == front + [Shift(v, carry)];
      assert t[k + 1..] == back == was[k + 1..];
      carry := Top(v);
    }
    ShiftDone(was[t.Length..], carry);
    assert t[..] == t[..t.Length] + [];
  }

  lemma ShiftDone(s: seq<bv8>, carry: bv8)
    requires s == []
    ensures ShiftIn(s, carry) == [] && CarryOut(s, carry) == carry
  {
  }

  /** The step from one tweak to the next, in place. */
  method Double(t: array<bv8>)
    requires t.Length == 16
    modifies t
    ensures t[..] == Doubled(old(t[..]))
    ensures IsTimesAlpha(old(Bits(t[..])), Bits(t[..]))
  {
    hide Bits8, Bits, IsTimesAlpha, Reduce, ShiftIn, CarryOut;
    ghost var was := t[..];
    var carry := ShiftBytes(t);
    if carry != 0 {
      t[0] := Reduce(t[0]);
    }
    DoubledIsTimesAlpha(was);
  }
}
