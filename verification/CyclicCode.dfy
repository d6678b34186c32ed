/**
 crc4 of pressure.c: a shift register over the bytes of the sensor's PROM, and the polynomial
 remainder over GF(2) that it computes.
 */
module CyclicCode {

  // ---------- polynomials ----------

  /** The coefficients of a remainder by a polynomial of degree four, that of x^3 first. */
  datatype Rem = Rem(b3: bool, b2: bool, b1: bool, b0: bool)

  const ZERO: Rem := Rem(false, false, false, false)

  function Add(a: Rem, b: Rem): Rem {
    Rem(a.b3 != b.b3, a.b2 != b.b2, a.b1 != b.b1, a.b0 != b.b0)
  }

  /** r * x + b modulo x^4 + x + 1. */
  function Feed(r: Rem, b: bool): Rem {
    Rem(r.b2, r.b1, r.b0 != r.b3, b != r.b3)
  }

  /** The remainder of a polynomial, whose coefficients are given highest first, by x^4 + x + 1. */
  function Remainder(p: seq<bool>): Rem {
    if |p| == 0 then ZERO else Feed(Remainder(p[..|p| - 1]), p[|p| - 1])
  }

  function Coefficient(p: seq<bool>, k: int): bool {
    if 0 <= k < |p| then p[k] else false
  }

  function RemCoefficient(r: Rem, k: int): bool {
    if k == 0 then r.b3 else if k == 1 then r.b2 else if k == 2 then r.b1 else if k == 3 then r.b0 else false
  }

  /**
   p == q * (x^4 + x + 1) + r, coefficient by coefficient. All coefficients are counted from that of
   x^(n+3), where n is the length of p and of q.
   */
  predicate IsDivision(p: seq<bool>, q: seq<bool>, r: Rem) {
    |q| == |p| && forall k :: 0 <= k < |p| + 4 ==> DivisionAt(p, q, r, k)
  }

  predicate DivisionAt(p: seq<bool>, q: seq<bool>, r: Rem, k: int) {
    Coefficient(p, k - 4) ==
      (((Coefficient(q, k) != Coefficient(q, k - 3)) != Coefficient(q, k - 4)) != RemCoefficient(r, k - |p|))
  }

  /** The quotient of the long division. */
  function Quotient(p: seq<bool>): (q: seq<bool>)
    ensures |q| == |p|
  {
    if |p| == 0 then [] else Quotient(p[..|p| - 1]) + [Remainder(p[..|p| - 1]).b3]
  }

  lemma {:induction false} DivisionExists(p: seq<bool>)
    ensures IsDivision(p, Quotient(p), Remainder(p))
  {
    if |p| > 0 {
      var n := |p| - 1;
      var p0, q0, r0 := p[..n], Quotient(p[..n]), Remainder(p[..n]);
      DivisionExists(p0);
      forall k | 0 <= k < |p| + 4
        ensures DivisionAt(p, Quotient(p), Remainder(p), k)
      {
        if k < n + 4 {
          assert DivisionAt(p0, q0, r0, k);
        }
      }
    }
  }

  /** The remainder is the only one: no other quotient and remainder give the same polynomial. */
  lemma {:induction false} DivisionIsUnique(p: seq<bool>, q: seq<bool>, r: Rem)
    requires IsDivision(p, q, r)
    ensures q == Quotient(p) && r == Remainder(p)
  {
    DivisionExists(p);
    SameQuotient(p, q, r, |p|);
    var n := |p|;
    forall k | 0 <= k < 4
      ensures RemCoefficient(r, k) == RemCoefficient(Remainder(p), k)
    {
      assert DivisionAt(p, q, r, n + k) && DivisionAt(p, Quotient(p), Remainder(p), n + k);
    }
    assert RemCoefficient(r, 0) == RemCoefficient(Remainder(p), 0);
    assert RemCoefficient(r, 1) == RemCoefficient(Remainder(p), 1);
    assert RemCoefficient(r, 2) == RemCoefficient(Remainder(p), 2);
    assert RemCoefficient(r, 3) == RemCoefficient(Remainder(p), 3);
  }

  lemma {:induction false} SameQuotient(p: seq<bool>, q: seq<bool>, r: Rem, n: nat)
    requires IsDivision(p, q, r) && IsDivision(p, Quotient(p), Remainder(p)) && n <= |p|
    ensures q[..n] == Quotient(p)[..n]
  {
    if n > 0 {
      SameQuotient(p, q, r, n - 1);
      var k, q' := n - 1, Quotient(p);
      assert DivisionAt(p, q, r, k) && DivisionAt(p, q', Remainder(p), k);
      assert forall j :: 0 <= j < k ==> q[..k][j] == q'[..k][j];
      assert q[..n] == q[..k] + [q[k]] && q'[..n] == q'[..k] + [q'[k]];
    }
  }

  // ---------- the code ----------

  function Zeros(n: nat): (z: seq<bool>)
    ensures |z| == n && forall k :: 0 <= k < n ==> !z[k]
  {
    seq(n, i => false)
  }

  /** M(x) * x^4 modulo x^4 + x + 1, for the message with the bits m. */
  function Code(m: seq<bool>): Rem { Remainder(m + Zeros(4)) }

  function Xor(a: seq<bool>, b: seq<bool>): (c: seq<bool>)
    requires |a| == |b|
    ensures |c| == |a| && forall k :: 0 <= k < |a| ==> c[k] == (a[k] != b[k])
  {
    seq(|a|, i requires 0 <= i < |a| => a[i] != b[i])
  }

  lemma {:induction false} RemainderIsLinear(a: seq<bool>, b: seq<bool>)
    requires |a| == |b|
    ensures Remainder(Xor(a, b)) == Add(Remainder(a), Remainder(b))
  {
    if |a| > 0 {
      var n := |a| - 1;
      RemainderIsLinear(a[..n], b[..n]);
      assert Xor(a, b)[..n] == Xor(a[..n], b[..n]);
    }
  }

  /** The code of a sum is the sum of the codes. */
  lemma CodeIsLinear(a: seq<bool>, b: seq<bool>)
    requires |a| == |b|
    ensures Code(Xor(a, b)) == Add(Code(a), Code(b))
  {
    RemainderIsLinear(a + Zeros(4), b + Zeros(4));
    assert Xor(a + Zeros(4), b + Zeros(4)) == Xor(a, b) + Zeros(4);
  }

  // ---------- errors ----------

  lemma {:induction false} ZerosKeepNonzero(p: seq<bool>, n: nat)
    ensures Remainder(p + Zeros(n)) == ZERO <==> Remainder(p) == ZERO
  {
    if n == 0 {
      assert p + Zeros(0) == p;
    } else {
      ZerosKeepNonzero(p, n - 1);
      assert (p + Zeros(n))[..|p| + n - 1] == p + Zeros(n - 1);
    }
  }

  lemma RemainderOfZeros(n: nat)
    ensures Remainder(Zeros(n)) == ZERO
  {
    ZerosKeepNonzero([], n);
    assert [] + Zeros(n) == Zeros(n);
  }

  /** A polynomial of degree less than four is its own remainder. */
  lemma {:induction false} ShortRemainder(n: nat, w: seq<bool>)
    requires |w| <= 4
    ensures Remainder(Zeros(n) + w) ==
      Rem(Coefficient(w, |w| - 4), Coefficient(w, |w| - 3), Coefficient(w, |w| - 2), Coefficient(w, |w| - 1))
  {
    if |w| == 0 {
      RemainderOfZeros(n);
      assert Zeros(n) + w == Zeros(n);
    } else {
      var v := w[..|w| - 1];
      ShortRemainder(n, v);
      assert (Zeros(n) + w)[..n + |w| - 1] == Zeros(n) + v;
    }
  }

  /** The two messages differ, and only within four neighbouring bits from i on. */
  predicate DifferByBurst(m: seq<bool>, n: seq<bool>, i: nat) {
    && |m| == |n| && m != n && i + 4 <= |m|
    && forall k :: 0 <= k < |m| && m[k] != n[k] ==> i <= k < i + 4
  }

  /** Every burst of at most four bits, and so every flip of one, changes the code. */
  lemma BurstIsDetected(m: seq<bool>, n: seq<bool>, i: nat)
    requires DifferByBurst(m, n, i)
    ensures Code(m) != Code(n)
  {
    var e := Xor(m, n);
    var w := e[i..i + 4];
    var tail := |m| - i - 4;
    assert e == Zeros(i) + w + Zeros(tail);
    assert e + Zeros(4) == (Zeros(i) + w) + Zeros(tail + 4);
    ShortRemainder(i, w);
    var k :| 0 <= k < |m| && m[k] != n[k];
    assert w[k - i];
    ZerosKeepNonzero(Zeros(i) + w, tail + 4);
    CodeIsLinear(m, n);
  }

  /** x^n modulo x^4 + x + 1. */
  function Power(n: nat): Rem {
    if n == 0 then Rem(false, false, false, true) else Feed(Power(n - 1), false)
  }

  lemma {:induction false} PowerIsRemainder(i: nat, n: nat)
    ensures Remainder(Zeros(i) + [true] + Zeros(n)) == Power(n)
  {
    if n == 0 {
      ShortRemainder(i, [true]);
      assert Zeros(i) + [true] + Zeros(0) == Zeros(i) + [true];
    } else {
      PowerIsRemainder(i, n - 1);
      assert (Zeros(i) + [true] + Zeros(n))[..i + n] == Zeros(i) + [true] + Zeros(n - 1);
    }
  }

  /** x generates all fifteen nonzero remainders. */
  lemma {:induction false} PowersRepeat(n: nat)
    ensures Power(n) == Power(n % 15) && (Power(n) == Power(0) <==> n % 15 == 0)
  {
    if n < 15 {
      FirstPowers();
    } else {
      PowersRepeat(n - 15);
      FifteenSteps(n - 15);
    }
  }

  lemma FirstPowers()
    ensures forall n :: 0 < n < 15 ==> Power(n) != Power(0)
  {
    assert Power(1) == Rem(false, false, true, false) && Power(2) == Rem(false, true, false, false);
    assert Power(3) == Rem(true, false, false, false) && Power(4) == Rem(false, false, true, true);
    assert Power(5) == Rem(false, true, true, false) && Power(6) == Rem(true, true, false, false);
    assert Power(7) == Rem(true, false, true, true) && Power(8) == Rem(false, true, false, true);
    assert Power(9) == Rem(true, false, true, false) && Power(10) == Rem(false, true, true, true);
    assert Power(11) == Rem(true, true, true, false) && Power(12) == Rem(true, true, true, true);
    assert Power(13) == Rem(true, true, false, true) && Power(14) == Rem(true, false, false, true);
  }

  lemma FiveSteps(n: nat)
    ensures Power(n + 5) == Feed(Feed(Feed(Feed(Feed(Power(n), false), false), false), false), false)
  {
    assert Power(n + 1) == Feed(Power(n), false) && Power(n + 2) == Feed(Power(n + 1), false);
    assert Power(n + 3) == Feed(Power(n + 2), false) && Power(n + 4) == Feed(Power(n + 3), false);
  }

  lemma FifteenSteps(n: nat)
    ensures Power(n + 15) == Power(n)
  {
    FiveSteps(n);
    FiveSteps(n + 5);
    FiveSteps(n + 10);
  }

  /** Flipping two bits goes unnoticed exactly when their distance is a multiple of fifteen. */
  lemma TwoFlips(m: seq<bool>, i: nat, j: nat)
    requires i < j < |m|
    ensures Code(m[i := !m[i]][j := !m[j]]) == Code(m) <==> (j - i) % 15 == 0
  {
    var n := m[i := !m[i]][j := !m[j]];
    var e, d := Xor(m, n), j - i;
    var a, b := Zeros(i) + [true] + Zeros(d), Zeros(j) + [true] + Zeros(0);
    PowerIsRemainder(i, d);
    PowerIsRemainder(j, 0);
    RemainderIsLinear(a, b);
    PowersRepeat(d);
    assert e + Zeros(4) == Xor(a, b) + Zeros(|m| - j + 3);
    ZerosKeepNonzero(Xor(a, b), |m| - j + 3);
    CodeIsLinear(m, n);
  }
}
