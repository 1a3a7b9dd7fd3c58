/** Powers of two and the digit arithmetic that identifiers, prefixes and machine words share. */
module Powers {

  function Pow2(n: nat): (r: nat)
    ensures r >= 1
  {
    if n == 0 then 1 else 2 * Pow2(n - 1)
  }

  /** The smallest h with n <= 2^h, that is, ceil(log2(n)) computed exactly. */
  function CeilLog2(n: nat): (h: nat)
    requires n >= 1
    ensures n <= Pow2(h)
    ensures h >= 1 ==> Pow2(h - 1) < n
  {
    if n == 1 then 0 else
      var h := CeilLog2((n + 1) / 2);
      h + 1
  }

  lemma {:induction false} Pow2Add(a: nat, b: nat)
    ensures Pow2(a + b) == Pow2(a) * Pow2(b)
  {
    if a == 0 {
    } else {
      Pow2Add(a - 1, b);
      assert Pow2(a + b) == 2 * Pow2(a - 1 + b);
      assert Pow2(a) * Pow2(b) == 2 * (Pow2(a - 1) * Pow2(b));
    }
  }

  lemma {:induction false} Pow2Monotone(a: nat, b: nat)
    requires a <= b
    ensures Pow2(a) <= Pow2(b)
    ensures a < b ==> Pow2(a) < Pow2(b)
  {
    if a < b {
      Pow2Monotone(a, b - 1);
    }
  }

  /** Two interval bounds pin down a quotient. */
  lemma DivUnique(x: int, d: int, q: int)
    requires d > 0
    requires q * d <= x < (q + 1) * d
    ensures x / d == q
  {
    var k := x / d;
    assert x == k * d + x % d;
    if k < q {
      MulMonotone(k + 1, q, d);
    } else if k > q {
      MulMonotone(q + 1, k, d);
    }
  }

  lemma MulMonotone(a: int, b: int, d: int)
    requires a <= b && d >= 0
    ensures a * d <= b * d
  {
    assert (b - a) * d >= 0;
    assert b * d == a * d + (b - a) * d;
  }

  /** Quotient bounds, the converse reading of DivUnique. */
  lemma DivBounds(x: int, d: int)
    requires d > 0
    ensures (x / d) * d <= x < (x / d + 1) * d
  {
    assert x == (x / d) * d + x % d;
    assert (x / d + 1) * d == (x / d) * d + d;
  }

  /** Dividing in two steps equals dividing once. */
  lemma DivDiv(x: nat, a: nat, b: nat)
    requires a > 0 && b > 0
    ensures a * b > 0
    ensures x / (a * b) == (x / a) / b
  {
    var q := (x / a) / b;
    DivBounds(x, a);
    DivBounds(x / a, b);
    // q*b <= x/a <= (q+1)*b - 1
    MulMonotone(q * b, x / a, a);
    MulMonotone(x / a + 1, (q + 1) * b, a);
    assert q * (a * b) == (q * b) * a;
    assert (q + 1) * (a * b) == ((q + 1) * b) * a;
    assert a * b > 0 by { MulMonotone(1, a, b); }
    DivUnique(x, a * b, q);
  }

  /** Moving one block further: r blocks of width w end where block r + 1 starts. */
  lemma BlockEnd(r: int, w: int)
    ensures (r + 1) * w == r * w + w
  {
  }

  /** x lies in block r of width w exactly when its quotient is r. */
  lemma InBlock(x: int, r: int, w: int)
    requires w > 0
    ensures r * w <= x < r * w + w <==> x / w == r
  {
    BlockEnd(r, w);
    DivBounds(x, w);
    if r * w <= x < r * w + w {
      DivUnique(x, w, r);
    }
  }

  /** Reaching r whole blocks bounds the quotient from below, and conversely. */
  lemma BlocksBelow(x: int, r: int, w: int)
    requires w > 0
    ensures r * w <= x <==> r <= x / w
  {
    DivBounds(x, w);
    if r <= x / w {
      MulMonotone(r, x / w, w);
    } else {
      MulMonotone(x / w + 1, r, w);
    }
  }

  // Shifts are defined one position at a time, so that they stay linear for the solver.

  function ShiftLeft(v: nat, n: nat): (r: nat) {
    if n == 0 then v else 2 * ShiftLeft(v, n - 1)
  }

  function ShiftRight(v: nat, n: nat): (r: nat) {
    if n == 0 then v else ShiftRight(v, n - 1) / 2
  }

  lemma {:induction false} ShiftLeftIsProduct(v: nat, n: nat)
    ensures ShiftLeft(v, n) == v * Pow2(n)
  {
    if n > 0 {
      ShiftLeftIsProduct(v, n - 1);
      assert v * Pow2(n) == 2 * (v * Pow2(n - 1));
    }
  }

  lemma {:induction false} ShiftRightIsQuotient(v: nat, n: nat)
    ensures ShiftRight(v, n) == v / Pow2(n)
  {
    if n > 0 {
      ShiftRightIsQuotient(v, n - 1);
      DivDiv(v, Pow2(n - 1), 2);
      assert Pow2(n) == Pow2(n - 1) * 2;
    }
  }

  /** x lies in block r of width 2^n exactly when dropping n bits of x leaves r. */
  lemma InShiftedBlock(x: nat, r: nat, n: nat)
    ensures ShiftLeft(r, n) <= x < ShiftLeft(r, n) + Pow2(n) <==> ShiftRight(x, n) == r
    ensures ShiftLeft(r, n) <= x <==> r <= ShiftRight(x, n)
    ensures ShiftLeft(r + 1, n) == ShiftLeft(r, n) + Pow2(n)
  {
    ShiftLeftIsProduct(r, n);
    ShiftLeftIsProduct(r + 1, n);
    ShiftRightIsQuotient(x, n);
    InBlock(x, r, Pow2(n));
    BlocksBelow(x, r, Pow2(n));
    BlockEnd(r, Pow2(n));
  }

  /** A number below 2^n shifts to nothing, and only such numbers do. */
  lemma ShiftRightToZero(v: nat, n: nat)
    ensures v < Pow2(n) <==> ShiftRight(v, n) == 0
  {
    InShiftedBlock(v, 1, n);
    InShiftedBlock(v, 0, n);
    ShiftLeftIsProduct(0, n);
  }

  lemma {:induction false} ShiftRightTwice(v: nat, a: nat, b: nat)
    ensures ShiftRight(ShiftRight(v, a), b) == ShiftRight(v, a + b)
  {
    if b > 0 {
      ShiftRightTwice(v, a, b - 1);
    }
  }

  /** Adding or removing 2^n moves the shifted value by one. */
  lemma ShiftRightOfSum(v: nat, n: nat)
    ensures ShiftRight(v + Pow2(n), n) == ShiftRight(v, n) + 1
  {
    var r := ShiftRight(v, n);
    InShiftedBlock(v, r, n);
    InShiftedBlock(v + Pow2(n), r + 1, n);
  }

  lemma {:induction false} ShiftLeftTwice(v: nat, a: nat, b: nat)
    ensures ShiftLeft(ShiftLeft(v, a), b) == ShiftLeft(v, a + b)
  {
    if b > 0 {
      ShiftLeftTwice(v, a, b - 1);
    }
  }
}
