/** The integer square root of plugins/qbic-nise/mathop.h
    (VL_FAST_SQRT_UI, instantiated for 32-, 16- and 8-bit words): one bit
    of the root is decided per step, from the most significant down. */
module MathOp {
  import opened Arith

  /** y is the integer square root of x: the largest y with y*y <= x. */
  predicate IsRoot(x: nat, y: nat) {
    y * y <= x < (y + 1) * (y + 1)
  }

  /** Nothing larger than a root squares to at most x. */
  lemma RootIsLargest(x: nat, y: nat, z: nat)
    requires IsRoot(x, y) && z * z <= x
    ensures z <= y
  {
    if z > y {
      MulMono(y + 1, z);
    }
  }

  lemma MulMono(a: nat, b: nat)
    requires a <= b
    ensures a * a <= b * b
  {
    assert a * a <= a * b;
  }

  /** The root is unique. */
  lemma RootUnique(x: nat, y: nat, z: nat)
    requires IsRoot(x, y) && IsRoot(x, z)
    ensures y == z
  {
    RootIsLargest(x, y, z);
    RootIsLargest(x, z, y);
  }

  /** VL_FAST_SQRT_UI for a word of `bits` bits.  The shifts are written
      with the wrap-around of the word (`% Pow2(bits)`); StepKeeps shows
      the wrap never takes effect. */
  method FastSqrt(bits: nat, x0: nat) returns (y: nat)
    requires bits >= 2 && bits % 2 == 0
    requires x0 < Pow2(bits)
    ensures IsRoot(x0, y)
    ensures y < Pow2(bits / 2)
  {
    var word := Pow2(bits);
    var x := x0;
    y := 0;
    var twok: int := bits - 2;
    ghost var i: nat := 0;
    ghost var p: nat := word;
    while twok >= 0
      invariant 2 * i <= bits && twok == bits - 2 - 2 * i && p == Pow2(bits - 2 * i)
      invariant y < Pow2(i)
      invariant y * y * p + x == x0
      invariant x0 < (y + 1) * (y + 1) * p
      decreases twok + 2
    {
      var q := Pow2(twok);
      x, y := SqrtBit(x0, x, y, i, bits, p, q, word);
      assert Pow2(bits - 2 * (i + 1)) == q;
      i, p := i + 1, q;
      twok := twok - 2;
    }
    SqrtDone(x0, x, y, i, bits, p);
  }

  lemma SqrtDone(x0: nat, x: nat, y: nat, i: nat, bits: nat, p: nat)
    requires 2 * i <= bits && bits - 2 - 2 * i < 0 && bits % 2 == 0 && p == Pow2(bits - 2 * i)
    requires y < Pow2(i) && y * y * p + x == x0 && x0 < (y + 1) * (y + 1) * p
    ensures IsRoot(x0, y) && y < Pow2(bits / 2)
  {
    assert 2 * i == bits && p == 1;
  }

  /** The body of the loop for shift twok = bits - 2 - 2i, with q = 2^twok
      and p = 4q the shift of the step before. */
  method SqrtBit(x0: nat, x: nat, y: nat, ghost i: nat, ghost bits: nat, ghost p: nat, q: nat, word: nat)
    returns (x': nat, y': nat)
    requires 2 * i + 2 <= bits && p == Pow2(bits - 2 * i) && q == Pow2(bits - 2 - 2 * i)
    requires word == Pow2(bits) && y < Pow2(i)
    requires y * y * p + x == x0 && x0 < (y + 1) * (y + 1) * p
    ensures y' < Pow2(i + 1) && y' * y' * q + x' == x0 && x0 < (y' + 1) * (y' + 1) * q
  {
    StepKeeps(x0, x, y, i, bits, p, q, word);
    x', y' := x, (2 * y) % word;
    var tmp := ((2 * y' + 1) * q) % word;
    if x' >= tmp {
      x' := x' - tmp;
      y' := y' + 1;
    }
  }

  /** One step of the loop: doubling y and testing the next bit keeps y the
      root of x0 / 4^k with residual x0 - y^2 4^k, and neither the shift of
      y nor tmp = (2y+1) << twok exceeds the word. */
  lemma StepKeeps(x0: nat, x: nat, y: nat, i: nat, bits: nat, p: nat, q: nat, word: nat)
    requires 2 * i + 2 <= bits && p == Pow2(bits - 2 * i) && q == Pow2(bits - 2 - 2 * i)
    requires word == Pow2(bits) && y < Pow2(i)
    requires y * y * p + x == x0 && x0 < (y + 1) * (y + 1) * p
    ensures var y2 := (2 * y) % word; var tmp := ((2 * y2 + 1) * q) % word;
      y2 == 2 * y && tmp == (2 * y2 + 1) * q
      && (x >= tmp ==> y2 + 1 < Pow2(i + 1) && (y2 + 1) * (y2 + 1) * q + (x - tmp) == x0
                       && x0 < (y2 + 2) * (y2 + 2) * q)
      && (x < tmp ==> y2 < Pow2(i + 1) && y2 * y2 * q + x == x0 && x0 < (y2 + 1) * (y2 + 1) * q)
  {
    Pow2Add(bits - 2 - 2 * i, 2);
    assert p == q * 4;
    ShiftFits(y, i, bits, word);
    var y2 := 2 * y;
    TermFits(y2, i, bits - 2 - 2 * i, bits, q, word);
    SqrtStep(x0, x, y, q);
  }

  lemma ShiftFits(y: nat, i: nat, bits: nat, word: nat)
    requires 2 * i + 2 <= bits && y < Pow2(i) && word == Pow2(bits)
    ensures (2 * y) % word == 2 * y && 2 * y < Pow2(i + 1)
  {
    var h := Pow2(i + 1);
    assert h == 2 * Pow2(i);
    Pow2Mono(i + 1, bits);
    ModOf(2 * y, word, 0, 2 * y);
  }

  /** tmp = (2y+1) << twok stays below 2^bits. */
  lemma TermFits(y: nat, i: nat, twok: nat, bits: nat, q: nat, word: nat)
    requires twok == bits - 2 - 2 * i && y < Pow2(i + 1) && y % 2 == 0
    requires q == Pow2(twok) && word == Pow2(bits)
    ensures ((2 * y + 1) * q) % word == (2 * y + 1) * q
  {
    var g, h := Pow2(i + 1), Pow2(i + 2);
    assert h == 2 * g;
    var t := 2 * y + 1;
    assert t < h;
    var n := t * q;
    MulLess(t, h, q);
    Pow2Add(i + 2, twok);
    Pow2Mono(i + 2 + twok, bits);
    ModOf(n, word, 0, n);
  }

  lemma MulLess(a: nat, b: nat, c: nat)
    requires a < b && c >= 1
    ensures a * c < b * c
  {
  }

  lemma {:induction false} Pow2Mono(a: nat, b: nat)
    requires a <= b
    ensures Pow2(a) <= Pow2(b)
    decreases b
  {
    if a < b {
      Pow2Mono(a, b - 1);
    }
  }

  /** The arithmetic of one step: with y = 2w, the candidate bit adds
      (2y+1) 4^k to y^2 4^k. */
  lemma SqrtStep(x0: nat, x: nat, w: nat, q: nat)
    requires q >= 1
    requires w * w * (q * 4) + x == x0
    requires x0 < (w + 1) * (w + 1) * (q * 4)
    ensures var y := 2 * w; var tmp := (2 * y + 1) * q;
      (x >= tmp ==> (y + 1) * (y + 1) * q + (x - tmp) == x0 && x0 < (y + 2) * (y + 2) * q)
      && (x < tmp ==> y * y * q + x == x0 && x0 < (y + 1) * (y + 1) * q)
  {
    var y := 2 * w;
    var tmp := (2 * y + 1) * q;
    var low := y * y * q;
    assert low == w * w * (q * 4);
    assert (y + 1) * (y + 1) * q == low + tmp;
    assert (y + 2) * (y + 2) * q == (w + 1) * (w + 1) * (q * 4);
  }

  method FastSqrtUi32(x: nat) returns (y: nat)
    requires x < 0x1_0000_0000
    ensures IsRoot(x, y) && y < 0x1_0000
  {
    Pow2Value32();
    y := FastSqrt(32, x);
  }

  method FastSqrtUi16(x: nat) returns (y: nat)
    requires x < 0x1_0000
    ensures IsRoot(x, y) && y < 0x100
  {
    Pow2Value16();
    y := FastSqrt(16, x);
  }

  method FastSqrtUi8(x: nat) returns (y: nat)
    requires x < 0x100
    ensures IsRoot(x, y) && y < 0x10
  {
    Pow2Value8();
    y := FastSqrt(8, x);
  }

  lemma Pow2Value8()
    ensures Pow2(4) == 0x10 && Pow2(8) == 0x100
  {
  }

  lemma Pow2Value16()
    ensures Pow2(8) == 0x100 && Pow2(16) == 0x1_0000
  {
    Pow2Value8();
    Pow2Add(8, 8);
  }

  lemma Pow2Value32()
    ensures Pow2(16) == 0x1_0000 && Pow2(32) == 0x1_0000_0000
  {
    Pow2Value16();
    Pow2Add(16, 16);
  }
}
