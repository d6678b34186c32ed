/**
 Bytes, C text and the bit operators of C on non-negative numbers.
 */
module Bytes {

  type byte = b: int | 0 <= b < 256

  type int32 = x: int | -0x8000_0000 <= x < 0x8000_0000

  const QUOTE: byte := 0x22
  const BACKSLASH: byte := 0x5C
  const COMMA: byte := 0x2C
  const COLON: byte := 0x3A
  const LBRACKET: byte := 0x5B
  const RBRACKET: byte := 0x5D
  const LBRACE: byte := 0x7B
  const RBRACE: byte := 0x7D
  const MINUS: byte := 0x2D
  const PLUS: byte := 0x2B
  const DOT: byte := 0x2E
  const ZERO: byte := 0x30
  const LETTER_U: byte := 0x75

  datatype Option<+T> = None | Some(value: T)

  /** The bytes of a C string before its terminator. */
  predicate NulFree(s: seq<byte>) {
    forall k :: 0 <= k < |s| ==> s[k] != 0
  }

  /** What a reader of C strings finds in some bytes: those up to the first zero. */
  function UpToNul(s: seq<byte>): (t: seq<byte>)
    ensures |t| <= |s| && t == s[..|t|] && NulFree(t) && (|t| < |s| ==> s[|t|] == 0)
    ensures NulFree(s) ==> t == s
  {
    if |s| == 0 || s[0] == 0 then [] else [s[0]] + UpToNul(s[1..])
  }

  /** What C reads at index i of the string s: the terminator when i is its length. */
  function At(s: seq<byte>, i: nat): byte
    requires i <= |s|
  {
    if i < |s| then s[i] else 0
  }

  /** The text w stands in s at index i. */
  predicate Occurs(s: seq<byte>, i: nat, w: seq<byte>) {
    i + |w| <= |s| && s[i..i + |w|] == w
  }

  lemma OccursSplit(s: seq<byte>, i: nat, a: seq<byte>, b: seq<byte>)
    ensures Occurs(s, i, a + b) <==> Occurs(s, i, a) && Occurs(s, i + |a|, b)
    ensures Occurs(s, i, a + b) ==> i + |a| + |b| <= |s|
  {
    if i + |a| + |b| <= |s| {
      assert s[i..i + |a| + |b|] == s[i..i + |a|] + s[i + |a|..i + |a| + |b|];
      assert (a + b)[..|a|] == a && (a + b)[|a|..] == b;
    }
  }

  lemma OccursSlice(s: seq<byte>, i: nat, w: seq<byte>)
    requires Occurs(s, i, w)
    ensures i + |w| <= |s| && s[i..i + |w|] == w
  {
  }

  lemma OccursAt(s: seq<byte>, i: nat, w: seq<byte>, k: nat)
    requires Occurs(s, i, w) && k < |w|
    ensures i + k < |s| && s[i + k] == w[k]
  {
    assert s[i..i + |w|][k] == s[i + k];
  }

  // ---------- bit operators ----------

  function And(a: nat, b: nat): nat
    decreases a + b
  {
    if a == 0 && b == 0 then 0
    else (if a % 2 == 1 && b % 2 == 1 then 1 else 0) + 2 * And(a / 2, b / 2)
  }

  function Or(a: nat, b: nat): nat
    decreases a + b
  {
    if a == 0 && b == 0 then 0
    else (if a % 2 == 1 || b % 2 == 1 then 1 else 0) + 2 * Or(a / 2, b / 2)
  }

  function Pow2(k: nat): (p: nat)
    ensures p > 0
  {
    if k == 0 then 1 else 2 * Pow2(k - 1)
  }

  lemma AndStep(a: nat, b: nat)
    ensures And(a, b) == (if a % 2 == 1 && b % 2 == 1 then 1 else 0) + 2 * And(a / 2, b / 2)
  {
  }

  lemma OrStep(a: nat, b: nat)
    ensures Or(a, b) == (if a % 2 == 1 || b % 2 == 1 then 1 else 0) + 2 * Or(a / 2, b / 2)
  {
  }

  lemma {:induction false} AndZero(a: nat)
    ensures And(a, 0) == 0
  {
    if a != 0 { AndZero(a / 2); }
  }

  lemma {:induction false} OrZero(a: nat)
    ensures Or(0, a) == a
  {
    if a != 0 { OrZero(a / 2); }
  }

  /** Masking with k one bits is the remainder by 2^k. */
  lemma {:induction false} AndLowBits(a: nat, k: nat)
    ensures And(a, Pow2(k) - 1) == a % Pow2(k)
  {
    hide And;
    if k == 0 {
      AndZero(a);
    } else {
      AndStep(a, Pow2(k) - 1);
      AndLowBits(a / 2, k - 1);
      var p := Pow2(k - 1);
      assert (2 * p - 1) / 2 == p - 1 && (2 * p - 1) % 2 == 1;
      HalfRemainder(a, p);
    }
  }

  lemma HalfRemainder(a: nat, p: nat)
    requires p > 0
    ensures a % (2 * p) == a % 2 + 2 * ((a / 2) % p)
  {
    var h := a / 2;
    var q, r := h / p, h % p;
    assert h == q * p + r;
    assert a == q * (2 * p) + (2 * r + a % 2);
    Remainder(a, 2 * p, q, 2 * r + a % 2);
  }

  lemma Remainder(a: nat, d: nat, q: nat, r: nat)
    requires d > 0 && a == q * d + r && r < d
    ensures a % d == r && a / d == q
  {
    var e := q - a / d;
    assert e * d == q * d - (a / d) * d;
    assert e * d == a % d - r;
    MultipleBound(e, d);
  }

  lemma MultipleBound(e: int, d: int)
    requires d > 0
    ensures e >= 1 ==> e * d >= d
    ensures e <= -1 ==> e * d <= -d
  {
    if e >= 1 {
      assert (e - 1) * d >= 0;
    } else if e <= -1 {
      assert (-e - 1) * d >= 0;
    }
  }

  function ShiftLeft(a: nat, k: nat): nat {
    if k == 0 then a else 2 * ShiftLeft(a, k - 1)
  }

  lemma {:induction false} ShiftLeftIsTimes(a: nat, k: nat)
    ensures ShiftLeft(a, k) == a * Pow2(k)
  {
    if k != 0 {
      ShiftLeftIsTimes(a, k - 1);
      assert 2 * (a * Pow2(k - 1)) == a * (2 * Pow2(k - 1));
    }
  }

  /** Oring numbers without common bits adds them. */
  lemma {:induction false} OrDisjoint(low: nat, k: nat, high: nat)
    requires low < Pow2(k)
    ensures Or(low, ShiftLeft(high, k)) == low + ShiftLeft(high, k)
  {
    if k == 0 {
      OrZero(high);
    } else {
      OrDisjoint(low / 2, k - 1, high);
    }
  }

  lemma {:induction false} OrCommutes(a: nat, b: nat)
    ensures Or(a, b) == Or(b, a)
    decreases a + b
  {
    if a != 0 || b != 0 { OrCommutes(a / 2, b / 2); }
  }
}
