/** Numbers as bytes, lowest byte first. */
module LittleEndian {
  import opened Basics
  import opened Modular

  const TWO32: nat := 0x1_0000_0000
  const TWO64: nat := 0x1_0000_0000_0000_0000

  /** x shifted left by i bytes. */
  function Scaled(x: nat, i: nat): nat {
    if i == 0 then x else 256 * Scaled(x, i - 1)
  }

  /** The n low bytes of x, lowest first. */
  function Le(x: nat, n: nat): (r: seq<Byte>)
    ensures |r| == n
  {
    if n == 0 then [] else [x % 256] + Le(x / 256, n - 1)
  }

  function FromLe(b: seq<Byte>): nat {
    if b == [] then 0 else b[0] + 256 * FromLe(b[1..])
  }

  lemma {:induction false} LeAt(x: nat, n: nat, i: nat)
    requires i < n
    ensures Le(x, n)[i] == Shifted(x, i) % 256
  {
    if i > 0 {
      LeAt(x / 256, n - 1, i - 1);
    }
  }

  lemma {:induction false} FromLeSnoc(b: seq<Byte>, c: Byte)
    ensures FromLe(b + [c]) == FromLe(b) + Scaled(c, |b|)
  {
    if b != [] {
      assert (b + [c])[1..] == b[1..] + [c];
      FromLeSnoc(b[1..], c);
    }
  }

  /** Writing n bytes and reading them back gives the number, provided it fits. */
  lemma {:induction false} FromLeLe(x: nat, n: nat)
    requires Shifted(x, n) == 0
    ensures FromLe(Le(x, n)) == x
  {
    if n > 0 {
      FromLeLe(x / 256, n - 1);
    }
  }

  /** What is written of a number that does not fit is its remainder. */
  lemma {:induction false} LeModulo(x: nat, n: nat)
    ensures Scaled(1, n) > 0 && FromLe(Le(x, n)) == x % Scaled(1, n)
  {
    ScaledPositive(n);
    if n > 0 {
      LeModulo(x / 256, n - 1);
      var m := Scaled(1, n - 1);
      assert x == 256 * (x / 256) + x % 256;
      ModuloStep(x / 256, x % 256, m);
    }
  }

  lemma ModuloStep(q: nat, r: nat, m: nat)
    requires m > 0 && r < 256
    ensures (256 * q + r) % (256 * m) == r + 256 * (q % m)
  {
    var k, y := q / m, q % m;
    assert q == k * m + y;
    assert 256 * q + r == k * (256 * m) + (r + 256 * y);
    DivUnique(256 * q + r, k, r + 256 * y, 256 * m);
  }

  lemma {:induction false} ShiftedSmall(x: nat, n: nat)
    requires x < Scaled(1, n)
    ensures Shifted(x, n) == 0
  {
    if n > 0 {
      ShiftedSmall(x / 256, n - 1);
    }
  }

  lemma Fits(x: nat)
    ensures x < TWO32 ==> FromLe(Le(x, 4)) == x
    ensures x < TWO64 ==> FromLe(Le(x, 8)) == x
  {
    assert Scaled(1, 4) == TWO32;
    assert Scaled(1, 8) == 256 * 256 * 256 * 256 * Scaled(1, 4) == TWO64;
    if x < TWO32 {
      ShiftedSmall(x, 4);
      FromLeLe(x, 4);
    }
    if x < TWO64 {
      ShiftedSmall(x, 8);
      FromLeLe(x, 8);
    }
  }

  lemma {:induction false} FromLeBound(b: seq<Byte>)
    ensures FromLe(b) < Scaled(1, |b|)
  {
    if b != [] {
      FromLeBound(b[1..]);
    }
  }

  lemma Widths()
    ensures Scaled(1, 4) == TWO32 && Scaled(1, 8) == TWO64
  {
    assert Scaled(1, 4) == TWO32;
    assert Scaled(1, 8) == 256 * 256 * 256 * 256 * Scaled(1, 4);
  }

  lemma {:induction false} ScaledPositive(n: nat)
    ensures Scaled(1, n) > 0
  {
    if n > 0 {
      ScaledPositive(n - 1);
    }
  }

  /** Two ways to write the same number in the same width are the same bytes. */
  lemma {:induction false} FromLeUnique(x: seq<Byte>, y: seq<Byte>)
    requires |x| == |y| && FromLe(x) == FromLe(y)
    ensures x == y
  {
    if x != [] {
      assert x[0] == y[0] && FromLe(x[1..]) == FromLe(y[1..]);
      FromLeUnique(x[1..], y[1..]);
      assert x == [x[0]] + x[1..] && y == [y[0]] + y[1..];
    }
  }

  lemma {:induction false} FromLeZeros(x: seq<Byte>, n: nat)
    ensures FromLe(x + seq(n, i => 0)) == FromLe(x)
    decreases |x| + n
  {
    var z: seq<Byte> := seq(n, i => 0);
    if x != [] {
      assert (x + z)[1..] == x[1..] + z;
      FromLeZeros(x[1..], n);
    } else if n > 0 {
      var y: seq<Byte> := seq(n - 1, i => 0);
      assert (x + z)[1..] == x + y;
      FromLeZeros(x, n - 1);
    } else {
      assert x + z == x;
    }
  }
}
