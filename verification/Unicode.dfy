/**
 Code points: the UTF-16 of RFC 2781, section 2, the UTF-8 of RFC 3629, section 3, and the bit
 operations by which the string parser goes from one to the other.
 */
module Unicode {
  import opened Bytes

  predicate IsHigh(u: nat) { 0xD800 <= u <= 0xDBFF }

  predicate IsLow(u: nat) { 0xDC00 <= u <= 0xDFFF }

  predicate IsScalar(cp: nat) { cp <= 0x10FFFF && !IsHigh(cp) && !IsLow(cp) }

  /** Section 2.1 of RFC 2781. */
  function Utf16(cp: nat): seq<nat>
    requires IsScalar(cp)
  {
    if cp < 0x10000 then [cp]
    else [0xD800 + (cp - 0x10000) / 0x400, 0xDC00 + (cp - 0x10000) % 0x400]
  }

  /** Section 3 of RFC 3629: the table of bit distributions, read as arithmetic. */
  function Utf8(cp: nat): seq<byte>
    requires IsScalar(cp)
  {
    if cp < 0x80 then [cp]
    else if cp < 0x800 then [0xC0 + cp / 0x40, 0x80 + cp % 0x40]
    else if cp < 0x10000 then [0xE0 + cp / 0x1000, 0x80 + cp / 0x40 % 0x40, 0x80 + cp % 0x40]
    else [0xF0 + cp / 0x40000, 0x80 + cp / 0x1000 % 0x40, 0x80 + cp / 0x40 % 0x40, 0x80 + cp % 0x40]
  }

  predicate IsTail(b: byte) { 0x80 <= b <= 0xBF }

  /** Section 4 of RFC 3629: the bytes of one character. */
  predicate IsUtf8Char(s: seq<byte>) {
    match |s|
    case 1 => s[0] <= 0x7F
    case 2 => 0xC2 <= s[0] <= 0xDF && IsTail(s[1])
    case 3 =>
      && 0xE0 <= s[0] <= 0xEF && IsTail(s[1]) && IsTail(s[2])
      && (s[0] == 0xE0 ==> s[1] >= 0xA0) && (s[0] == 0xED ==> s[1] <= 0x9F)
    case 4 =>
      && 0xF0 <= s[0] <= 0xF4 && IsTail(s[1]) && IsTail(s[2]) && IsTail(s[3])
      && (s[0] == 0xF0 ==> s[1] >= 0x90) && (s[0] == 0xF4 ==> s[1] <= 0x8F)
    case _ => false
  }

  /** The bits of a byte behind its mark. */
  function Bits(b: byte, mark: nat): nat
    requires mark <= b
  {
    b - mark
  }

  /** Section 3 of RFC 3629: the bits behind the marks. */
  function FromUtf8(s: seq<byte>): nat
    requires IsUtf8Char(s)
  {
    match |s|
    case 1 => s[0]
    case 2 => 0x40 * Bits(s[0], 0xC0) + Bits(s[1], 0x80)
    case 3 => 0x1000 * Bits(s[0], 0xE0) + 0x40 * Bits(s[1], 0x80) + Bits(s[2], 0x80)
    case _ => 0x40000 * Bits(s[0], 0xF0) + 0x1000 * Bits(s[1], 0x80) + 0x40 * Bits(s[2], 0x80) + Bits(s[3], 0x80)
  }

  /** The UTF-8 of every code point is well formed and decodes to it. */
  lemma Utf8RoundTrip(cp: nat)
    requires IsScalar(cp)
    ensures IsUtf8Char(Utf8(cp)) && FromUtf8(Utf8(cp)) == cp
  {
    SixBits(cp);
    SixBits(cp / 0x40);
    SixBits(cp / 0x1000);
  }

  lemma SixBits(n: nat)
    ensures n == 0x40 * (n / 0x40) + n % 0x40 && n / 0x40 / 0x40 == n / 0x1000 && n / 0x1000 / 0x40 == n / 0x40000
  {
  }

  /** And every well-formed character is the UTF-8 of what it decodes to. */
  lemma Utf8IsOnto(s: seq<byte>)
    requires IsUtf8Char(s)
    ensures IsScalar(FromUtf8(s)) && Utf8(FromUtf8(s)) == s
  {
    var cp := FromUtf8(s);
    match |s|
    case 1 =>
      assert [s[0]] == s;
    case 2 =>
      TwoDigits(cp, Bits(s[0], 0xC0), Bits(s[1], 0x80));
      assert [s[0], s[1]] == s;
    case 3 =>
      var a, b := Bits(s[0], 0xE0), Bits(s[1], 0x80);
      TwoDigits(cp, 0x40 * a + b, Bits(s[2], 0x80));
      TwoDigits(cp / 0x40, a, b);
      SixBits(cp);
      assert [s[0], s[1], s[2]] == s;
    case _ =>
      var a, b, c := Bits(s[0], 0xF0), Bits(s[1], 0x80), Bits(s[2], 0x80);
      TwoDigits(cp, 0x1000 * a + 0x40 * b + c, Bits(s[3], 0x80));
      TwoDigits(cp / 0x40, 0x40 * a + b, c);
      TwoDigits(cp / 0x1000, a, b);
      SixBits(cp);
      SixBits(cp / 0x40);
      assert [s[0], s[1], s[2], s[3]] == s;
  }

  lemma TwoDigits(n: nat, high: nat, low: nat)
    requires n == 0x40 * high + low && low < 0x40
    ensures n / 0x40 == high && n % 0x40 == low
  {
  }

  /** The code point that a surrogate pair is combined into. */
  function Combine(high: nat, low: nat): nat {
    0x10000 + Or(ShiftLeft(And(high, 0x3FF), 10), And(low, 0x3FF))
  }

  /** Combining is the inverse of UTF-16 encoding: every pair is the encoding of what it combines to. */
  lemma CombineInvertsUtf16(high: nat, low: nat)
    requires IsHigh(high) && IsLow(low)
    ensures IsScalar(Combine(high, low)) && Utf16(Combine(high, low)) == [high, low]
  {
    CombineValue(high, low);
    Remainder(0x400 * (high - 0xD800) + (low - 0xDC00), 0x400, high - 0xD800, low - 0xDC00);
  }

  lemma CombineValue(high: nat, low: nat)
    requires IsHigh(high) && IsLow(low)
    ensures Combine(high, low) == 0x10000 + 0x400 * (high - 0xD800) + (low - 0xDC00)
  {
    LowTenBits(high);
    LowTenBits(low);
    Remainder(high, 0x400, 54, high - 0xD800);
    Remainder(low, 0x400, 55, low - 0xDC00);
    JoinTenBits(high - 0xD800, low - 0xDC00);
  }

  lemma LowTenBits(u: nat)
    ensures And(u, 0x3FF) == u % 0x400
  {
    AndLowBits(u, 10);
    assert Pow2(10) == 0x400;
  }

  lemma JoinTenBits(high: nat, low: nat)
    requires low < 0x400
    ensures Or(ShiftLeft(high, 10), low) == 0x400 * high + low
  {
    assert Pow2(10) == 0x400;
    ShiftLeftIsTimes(high, 10);
    OrDisjoint(low, 10, high);
    OrCommutes(ShiftLeft(high, 10), low);
  }

  // ---------- the transcoder's bit operations ----------

  /** The byte stored by an assignment of (uc | 0x80) & 0xBF to a char. */
  function ContinuationByte(uc: nat): nat { And(Or(uc, 0x80), 0xBF) }

  /** The byte stored by an assignment of uc | mark to a char. */
  function LeadByte(uc: nat, mark: nat): nat { Or(uc, mark) }

  lemma ContinuationByteBits(uc: nat)
    ensures ContinuationByte(uc) == 0x80 + uc % 0x40
  {
    assert Pow2(6) == 0x40;
    ContinuationBits(uc, 6, 0x40);
  }

  lemma {:induction false} ContinuationBits(x: nat, k: nat, p: nat)
    requires p == Pow2(k)
    ensures And(Or(x, 2 * p), 3 * p - 1) == 2 * p + x % p
  {
    hide Or, And;
    var y := Or(x, 2 * p);
    OrStep(x, 2 * p);
    AndStep(y, 3 * p - 1);
    if k == 0 {
      OrStep(x / 2, 1);
      AndStep(y / 2, 1);
      AndZero(y / 2 / 2);
    } else {
      var h := Pow2(k - 1);
      assert p == 2 * h;
      ContinuationBits(x / 2, k - 1, h);
      HalfRemainder(x, h);
      assert (3 * p - 1) / 2 == 3 * h - 1 && (3 * p - 1) % 2 == 1;
    }
  }

  lemma LeadByteBits(uc: nat)
    ensures LeadByte(uc, 0) == uc
    ensures uc < 0x20 ==> LeadByte(uc, 0xC0) == 0xC0 + uc
    ensures uc < 0x10 ==> LeadByte(uc, 0xE0) == 0xE0 + uc
    ensures uc < 0x08 ==> LeadByte(uc, 0xF0) == 0xF0 + uc
  {
    OrZero(uc);
    OrCommutes(uc, 0);
    assert ShiftLeft(6, 5) == 0xC0 && Pow2(5) == 0x20;
    assert ShiftLeft(14, 4) == 0xE0 && Pow2(4) == 0x10;
    assert ShiftLeft(30, 3) == 0xF0 && Pow2(3) == 0x08;
    if uc < 0x20 { OrDisjoint(uc, 5, 6); }
    if uc < 0x10 { OrDisjoint(uc, 4, 14); }
    if uc < 0x08 { OrDisjoint(uc, 3, 30); }
  }

  /** How many bytes the transcoder sets aside for a code point. */
  function Utf8Length(uc: nat): nat {
    if uc < 0x80 then 1 else if uc < 0x800 then 2 else if uc < 0x10000 then 3 else 4
  }

  /** The lead byte marks, indexed by the length. */
  const FIRST_BYTE_MARK: seq<nat> := [0x00, 0x00, 0xC0, 0xE0, 0xF0, 0xF8, 0xFC]
}
