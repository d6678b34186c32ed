/**
 The loops of crc4 over a 32-bit register, proved against the polynomial remainder. An unsigned int is
 its 32 bits, highest first.
 */
module SensorCrc {
  import opened CyclicCode

  type uint32 = n: seq<bool> | |n| == 32 witness Zeros(32)

  // ---------- operators of unsigned int ----------

  function Ones(n: nat): (z: seq<bool>)
    ensures |z| == n && forall k :: 0 <= k < n ==> z[k]
  {
    seq(n, i => true)
  }

  const MASK_00FF: uint32 := Zeros(24) + Ones(8)
  const MASK_FF00: uint32 := Zeros(16) + Ones(8) + Zeros(8)
  const MASK_000F: uint32 := Zeros(28) + Ones(4)
  const BITS_3000: uint32 := Zeros(18) + [true, true] + Zeros(12)

  function And(a: uint32, b: uint32): (c: uint32)
    ensures forall k :: 0 <= k < 32 ==> c[k] == (a[k] && b[k])
  {
    seq(32, i requires 0 <= i < 32 => a[i] && b[i])
  }

  /** a << 1 */
  function ShiftLeft(a: uint32): uint32 { a[1..] + [false] }

  /** a >> k */
  function ShiftRight(a: uint32, k: nat): uint32
    requires k <= 32
  {
    Zeros(k) + a[..32 - k]
  }

  /** The cast to unsigned short and back. */
  function AsShort(a: uint32): uint32 { Zeros(16) + a[16..] }

  /** The bit 0x8000. */
  function Bit15(a: uint32): bool { a[16] }

  // ---------- the register ----------

  /** One turn of the inner loop. */
  function Shifted(n: uint32): uint32 {
    if Bit15(n) then Xor(ShiftLeft(n), BITS_3000) else ShiftLeft(n)
  }

  function ShiftedTimes(n: uint32, k: nat): uint32 {
    if k == 0 then n else Shifted(ShiftedTimes(n, k - 1))
  }

  /** The four bits that are tested and returned, and the twelve below them. */
  function Top(n: uint32): Rem { Rem(n[16], n[17], n[18], n[19]) }

  function Below(n: uint32): (r: seq<bool>)
    ensures |r| == 12
  {
    n[20..]
  }

  function FeedAll(r: Rem, bits: seq<bool>): Rem {
    if |bits| == 0 then r else Feed(FeedAll(r, bits[..|bits| - 1]), bits[|bits| - 1])
  }

  lemma {:induction false} RemainderAppend(a: seq<bool>, b: seq<bool>)
    ensures Remainder(a + b) == FeedAll(Remainder(a), b)
  {
    if |b| == 0 {
      assert a + b == a;
    } else {
      RemainderAppend(a, b[..|b| - 1]);
      assert (a + b)[..|a| + |b| - 1] == a + b[..|b| - 1];
    }
  }

  /** A turn of the loop feeds the bit below the top four into their remainder, and moves up the others. */
  lemma ShiftFeeds(n: uint32)
    ensures Top(Shifted(n)) == Feed(Top(n), Below(n)[0])
    ensures Below(Shifted(n)) == Below(n)[1..] + [false]
  {
    assert forall k :: 20 <= k < 31 ==> Shifted(n)[k] == n[k + 1];
    assert !Shifted(n)[31];
  }

  lemma {:induction false} ShiftsFeed(n: uint32, k: nat)
    requires k <= 12
    ensures Top(ShiftedTimes(n, k)) == FeedAll(Top(n), Below(n)[..k])
    ensures Below(ShiftedTimes(n, k)) == Below(n)[k..] + Zeros(k)
  {
    if k > 0 {
      hide Top, Below, Shifted;
      var m := ShiftedTimes(n, k - 1);
      ShiftsFeed(n, k - 1);
      ShiftFeeds(m);
      assert Below(n)[..k][..k - 1] == Below(n)[..k - 1];
      assert Below(m)[0] == Below(n)[k - 1];
    }
  }

  /** What the register holds between two bytes: four bits that are still to be fed in, below the remainder. */
  predicate Holds(n: uint32, bits: seq<bool>) {
    if |bits| < 4 then |bits| == 0 && Top(n) == ZERO && Below(n) == Zeros(12)
    else
      var k := |bits| - 4;
      Top(n) == Remainder(bits[..k]) && Below(n) == bits[k..] + Zeros(8)
  }

  /** A byte goes into the lowest bits, and eight shifts feed in what was waiting and its upper half. */
  lemma ByteIsFed(n: uint32, bits: seq<bool>, b: uint32)
    requires Holds(n, bits) && b[..24] == Zeros(24) && |bits| % 8 == 0
    ensures Holds(ShiftedTimes(Xor(n, b), 8), bits + b[24..])
  {
    hide Top, Below, Remainder, Holds;
    var x, byte := Xor(n, b), b[24..];
    ByteGoesBelow(n, bits, b);
    ShiftsFeed(x, 8);
    HeldBits(n, bits);
    var k := |bits| - 4;
    if |bits| == 0 {
      FirstByteFed(Below(x), byte);
      assert bits + byte == byte;
      HoldIs(ShiftedTimes(x, 8), bits + byte, 4);
    } else {
      assert Below(x)[..8] == bits[k..] + byte[..4] && Below(x)[8..] == byte[4..];
      RemainderAppend(bits[..k], bits[k..] + byte[..4]);
      assert bits[..k] + (bits[k..] + byte[..4]) == (bits + byte)[..k + 8];
      assert (bits + byte)[k + 8..] == byte[4..];
      HoldIs(ShiftedTimes(x, 8), bits + byte, k + 8);
    }
  }

  lemma HoldIs(n: uint32, bits: seq<bool>, k: nat)
    requires |bits| == k + 4 && Top(n) == Remainder(bits[..k]) && Below(n) == bits[k..] + Zeros(8)
    ensures Holds(n, bits)
  {
  }

  lemma HeldBits(n: uint32, bits: seq<bool>)
    requires Holds(n, bits) && |bits| % 8 == 0
    ensures |bits| == 0 ==> bits == [] && Top(n) == ZERO && Below(n)[..4] == Zeros(4)
    ensures |bits| > 0 ==> var k := |bits| - 4; Top(n) == Remainder(bits[..k]) && Below(n)[..4] == bits[k..]
  {
  }

  /** The byte goes below what is waiting, into bits that are zero. */
  lemma ByteGoesBelow(n: uint32, bits: seq<bool>, b: uint32)
    requires Holds(n, bits) && b[..24] == Zeros(24) && |bits| % 8 == 0
    ensures Top(Xor(n, b)) == Top(n) && Below(Xor(n, b)) == Below(n)[..4] + b[24..]
  {
    assert forall k :: 0 <= k < 24 ==> b[k] == b[..24][k];
    assert forall k :: 24 <= k < 32 ==> n[k] == Below(n)[k - 20];
  }

  lemma FirstByteFed(below: seq<bool>, byte: seq<bool>)
    requires |byte| == 8 && below == Zeros(4) + byte
    ensures FeedAll(ZERO, below[..8]) == Remainder(byte[..4]) && below[8..] == byte[4..]
  {
    assert below[..8] == Zeros(4) + byte[..4];
    RemainderOfZeros(4);
    RemainderAppend([], Zeros(4) + byte[..4]);
    RemainderAppend(Zeros(4), byte[..4]);
    RemainderAppend([], byte[..4]);
    assert [] + (Zeros(4) + byte[..4]) == Zeros(4) + byte[..4] && [] + byte[..4] == byte[..4];
  }

  // ---------- the PROM ----------

  /** Words of 16 bits, as the sensor sends them. */
  predicate Words16(prom: seq<uint32>) {
    |prom| == 8 && forall i :: 0 <= i < 8 ==> prom[i][..16] == Zeros(16)
  }

  /** The byte that the outer loop takes: the upper half of a word, or the lower one. */
  function ByteAt(prom: seq<uint32>, cnt: nat): uint32
    requires |prom| == 8 && cnt < 16
  {
    if cnt % 2 == 1 then AsShort(And(prom[cnt / 2], MASK_00FF)) else AsShort(ShiftRight(prom[cnt / 2], 8))
  }

  /** The bits of that byte. */
  function ByteBits(prom: seq<uint32>, cnt: nat): (bits: seq<bool>)
    requires |prom| == 8 && cnt < 16
    ensures |bits| == 8
  {
    if cnt % 2 == 1 then prom[cnt / 2][24..] else prom[cnt / 2][16..24]
  }

  lemma ByteOfWord(prom: seq<uint32>, cnt: nat)
    requires Words16(prom) && cnt < 16
    ensures ByteAt(prom, cnt)[..24] == Zeros(24) && ByteAt(prom, cnt)[24..] == ByteBits(prom, cnt)
  {
    var w := prom[cnt / 2];
    assert forall k :: 0 <= k < 16 ==> w[k] == w[..16][k];
    if cnt % 2 == 1 {
      assert forall k :: 16 <= k < 32 ==> ByteAt(prom, cnt)[k] == And(w, MASK_00FF)[k];
    } else {
      assert forall k :: 16 <= k < 32 ==> ByteAt(prom, cnt)[k] == ShiftRight(w, 8)[k];
    }
  }

  /** The bits of the first n bytes. */
  function MessageBits(prom: seq<uint32>, n: nat): (m: seq<bool>)
    requires |prom| == 8 && n <= 16
    ensures |m| == 8 * n
  {
    if n == 0 then [] else MessageBits(prom, n - 1) + ByteBits(prom, n - 1)
  }

  lemma {:induction false} SameBytes(p: seq<uint32>, q: seq<uint32>, n: nat)
    requires |p| == |q| == 8 && n <= 16 && forall cnt :: 0 <= cnt < n ==> ByteBits(p, cnt) == ByteBits(q, cnt)
    ensures MessageBits(p, n) == MessageBits(q, n)
  {
    if n > 0 { SameBytes(p, q, n - 1); }
  }

  /** Without the byte of the code, the sixteen bytes are the first fifteen and a zero. */
  lemma LastByteIsZero(prom: seq<uint32>)
    requires Words16(prom)
    ensures var q := Masked(prom);
      Words16(q) && MessageBits(q, 16) == MessageBits(prom, 15) + Zeros(8)
  {
    var q := Masked(prom);
    assert forall k :: 0 <= k < 16 ==> prom[7][k] == prom[7][..16][k];
    assert q[7][..16] == Zeros(16) && q[7][16..24] == prom[7][16..24] && q[7][24..] == Zeros(8);
    forall cnt | 0 <= cnt < 15
      ensures ByteBits(prom, cnt) == ByteBits(q, cnt)
    {
    }
    SameBytes(prom, q, 15);
    assert ByteBits(q, 15) == Zeros(8);
  }

  /** At the end the code of the message stands in the top bits, and the lowest twelve are zero. */
  lemma RegisterEnds(n: uint32, m: seq<bool>)
    requires Holds(n, m + Zeros(8))
    ensures Top(n) == Code(m) && Below(n) == Zeros(12)
  {
    assert (m + Zeros(8))[..|m| + 4] == m + Zeros(4);
    assert (m + Zeros(8))[|m| + 4..] == Zeros(4);
  }

  // ---------- sixteen bits are enough ----------

  type uint16 = n: seq<bool> | |n| == 16 witness Zeros(16)

  const SHORT_3000: uint16 := Zeros(2) + [true, true] + Zeros(12)

  /** One turn of the inner loop in a register of 16 bits. */
  function ShortShifted(n: uint16): uint16 {
    var m := n[1..] + [false];
    if n[0] then Xor(m, SHORT_3000) else m
  }

  function ShortShiftedTimes(n: uint16, k: nat): uint16 {
    if k == 0 then n else ShortShifted(ShortShiftedTimes(n, k - 1))
  }

  /** The register after n bytes, which is never masked while the loops run. */
  function Register(prom: seq<uint32>, n: nat): uint32
    requires |prom| == 8 && n <= 16
  {
    if n == 0 then Zeros(32) else ShiftedTimes(Xor(Register(prom, n - 1), ByteAt(prom, n - 1)), 8)
  }

  /** The same in 16 bits. */
  function ShortRegister(prom: seq<uint32>, n: nat): uint16
    requires |prom| == 8 && n <= 16
  {
    if n == 0 then Zeros(16) else ShortShiftedTimes(Xor(ShortRegister(prom, n - 1), ByteAt(prom, n - 1)[16..]), 8)
  }

  lemma ShortShift(n: uint32)
    ensures Shifted(n)[16..] == ShortShifted(n[16..])
  {
    assert BITS_3000[16..] == SHORT_3000;
    assert forall k :: 16 <= k < 32 ==> BITS_3000[k] == SHORT_3000[k - 16];
  }

  lemma {:induction false} ShortShifts(n: uint32, k: nat)
    ensures ShiftedTimes(n, k)[16..] == ShortShiftedTimes(n[16..], k)
  {
    if k > 0 {
      ShortShifts(n, k - 1);
      ShortShift(ShiftedTimes(n, k - 1));
    }
  }

  /** For any words and after every byte, the lower half of the 32-bit register is the 16-bit register. */
  lemma {:induction false} LowerHalvesAgree(prom: seq<uint32>, n: nat)
    requires |prom| == 8 && n <= 16
    ensures Register(prom, n)[16..] == ShortRegister(prom, n)
  {
    if n > 0 {
      hide ShiftedTimes, ShortShiftedTimes, ByteAt;
      LowerHalvesAgree(prom, n - 1);
      var a, b := Register(prom, n - 1), ByteAt(prom, n - 1);
      assert Xor(a, b)[16..] == Xor(a[16..], b[16..]);
      ShortShifts(Xor(a, b), 8);
    } else {
      assert Zeros(32)[16..] == Zeros(16);
    }
  }

  // ---------- crc4 ----------

  /** What crc4 computes of a PROM. */
  function Crc(prom: seq<uint32>): Rem
    requires |prom| == 8
  {
    Code(MessageBits(prom, 15))
  }

  /** The PROM without the byte that holds the code. */
  function Masked(prom: seq<uint32>): seq<uint32>
    requires |prom| == 8
  {
    prom[7 := And(MASK_FF00, prom[7])]
  }

  function Result(n: uint32): Rem { Rem(n[28], n[29], n[30], n[31]) }

  /** crc4: the code of the first fifteen bytes; the PROM is as it was. */
  method Crc4(n_prom: array<uint32>) returns (n_rem: uint32)
    requires n_prom.Length == 8 && Words16(n_prom[..])
    modifies n_prom
    ensures n_prom[..] == old(n_prom[..])
    ensures n_rem[..28] == Zeros(28) && Result(n_rem) == Crc(old(n_prom[..]))
    ensures n_rem[28..] == ShortRegister(Masked(old(n_prom[..])), 16)[..4]
  {
    hide Holds, MessageBits, ByteBits, Code, Register, ShortRegister;
    ghost var prom := n_prom[..];
    n_rem := Zeros(32);
    var crc_read := n_prom[7];
    n_prom[7] := And(MASK_FF00, n_prom[7]);
    ghost var masked := n_prom[..];
    assert masked == Masked(prom);
    LastByteIsZero(prom);
    NothingHeld(masked);
    RegisterStarts(masked);
    var cnt := 0;
    while cnt < 16
      invariant cnt <= 16 && n_prom[..] == masked && Holds(n_rem, MessageBits(masked, cnt))
      invariant n_rem == Register(masked, cnt)
    {
      ByteOfWord(masked, cnt);
      ghost var before := n_rem;
      assert n_prom[cnt / 2] == masked[cnt / 2];
      if cnt % 2 == 1 {
        n_rem := Xor(n_rem, AsShort(And(n_prom[cnt / 2], MASK_00FF)));
      } else {
        n_rem := Xor(n_rem, AsShort(ShiftRight(n_prom[cnt / 2], 8)));
      }
      ghost var x := n_rem;
      assert x == Xor(before, ByteAt(masked, cnt));
      var n_bit := 8;
      while n_bit > 0
        invariant 0 <= n_bit <= 8 && n_rem == ShiftedTimes(x, 8 - n_bit)
      {
        if Bit15(n_rem) {
          n_rem := Xor(ShiftLeft(n_rem), BITS_3000);
        } else {
          n_rem := ShiftLeft(n_rem);
        }
        n_bit := n_bit - 1;
      }
      NextByte(before, masked, cnt);
      RegisterStep(masked, cnt);
      cnt := cnt + 1;
    }
    RegisterEnds(n_rem, MessageBits(prom, 15));
    LastFour(n_rem);
    LowerHalvesAgree(masked, 16);
    n_rem := And(MASK_000F, ShiftRight(n_rem, 12));
    n_prom[7] := crc_read;
    assert n_prom[..] == masked[7 := crc_read] == prom;
  }

  lemma NothingHeld(prom: seq<uint32>)
    requires |prom| == 8
    ensures Holds(Zeros(32), MessageBits(prom, 0))
  {
  }

  lemma RegisterStarts(prom: seq<uint32>)
    requires |prom| == 8
    ensures Register(prom, 0) == Zeros(32)
  {
  }

  lemma RegisterStep(prom: seq<uint32>, cnt: nat)
    requires |prom| == 8 && cnt < 16
    ensures Register(prom, cnt + 1) == ShiftedTimes(Xor(Register(prom, cnt), ByteAt(prom, cnt)), 8)
  {
  }

  lemma NextByte(n: uint32, prom: seq<uint32>, cnt: nat)
    requires Words16(prom) && cnt < 16 && Holds(n, MessageBits(prom, cnt))
    ensures Holds(ShiftedTimes(Xor(n, ByteAt(prom, cnt)), 8), MessageBits(prom, cnt + 1))
  {
    hide Holds, ByteAt, ByteBits;
    ByteOfWord(prom, cnt);
    ByteIsFed(n, MessageBits(prom, cnt), ByteAt(prom, cnt));
  }

  lemma LastFour(n: uint32)
    ensures var r := And(MASK_000F, ShiftRight(n, 12));
      r[..28] == Zeros(28) && Result(r) == Top(n) && r[28..] == n[16..][..4]
  {
  }

  // ---------- two PROMs ----------

  /** The bits of the first fifteen bytes, in the order in which they are sent. */
  function PromBit(prom: seq<uint32>, t: nat): bool
    requires |prom| == 8 && t < 128
  {
    prom[t / 16][16 + t % 16]
  }

  lemma {:induction false} MessageBit(prom: seq<uint32>, n: nat, t: nat)
    requires |prom| == 8 && n <= 16 && t < 8 * n
    ensures MessageBits(prom, n)[t] == PromBit(prom, t)
  {
    if t < 8 * (n - 1) {
      MessageBit(prom, n - 1, t);
    } else {
      assert t / 8 == n - 1 && t / 16 == (n - 1) / 2;
    }
  }

  /** The PROMs differ in the first fifteen bytes, and only within four neighbouring bits. */
  predicate DifferInPlace(p: seq<uint32>, q: seq<uint32>, i: nat)
    requires |p| == |q| == 8
  {
    && i + 4 <= 120 && (exists t :: 0 <= t < 120 && PromBit(p, t) != PromBit(q, t))
    && forall t :: 0 <= t < 120 && PromBit(p, t) != PromBit(q, t) ==> i <= t < i + 4
  }

  /**
   Whatever stands in the byte of the code, a change within four neighbouring bits of the others changes the result.
   */
  lemma PromBurstIsDetected(p: seq<uint32>, q: seq<uint32>, i: nat)
    requires |p| == |q| == 8 && DifferInPlace(p, q, i)
    ensures Crc(p) != Crc(q)
  {
    hide PromBit, Code, MessageBits;
    var m, n := MessageBits(p, 15), MessageBits(q, 15);
    forall t | 0 <= t < 120
      ensures m[t] == PromBit(p, t) && n[t] == PromBit(q, t)
    {
      MessageBit(p, 15, t);
      MessageBit(q, 15, t);
    }
    BurstIsDetected(m, n, i);
  }

  function XorWords(p: seq<uint32>, q: seq<uint32>): (r: seq<uint32>)
    requires |p| == |q|
    ensures |r| == |p|
  {
    seq(|p|, i requires 0 <= i < |p| => Xor(p[i], q[i]))
  }

  /** The code of two PROMs, word by word exclusive or, is that of their codes. */
  lemma PromIsLinear(p: seq<uint32>, q: seq<uint32>)
    requires |p| == |q| == 8
    ensures Crc(XorWords(p, q)) == Add(Crc(p), Crc(q))
  {
    hide Code, MessageBits;
    var r := XorWords(p, q);
    var m, n := MessageBits(p, 15), MessageBits(q, 15);
    forall t | 0 <= t < 120
      ensures MessageBits(r, 15)[t] == Xor(m, n)[t]
    {
      MessageBit(r, 15, t);
      MessageBit(p, 15, t);
      MessageBit(q, 15, t);
    }
    assert MessageBits(r, 15) == Xor(m, n);
    CodeIsLinear(m, n);
  }

  /** crc4 of two PROMs that differ within four neighbouring bits of their first fifteen bytes. */
  method CompareCodes(p: array<uint32>, q: array<uint32>) returns (same: bool)
    requires p.Length == q.Length == 8 && Words16(p[..]) && Words16(q[..])
    modifies p, q
    ensures p[..] == old(p[..]) && q[..] == old(q[..])
    ensures same <==> Crc(p[..]) == Crc(q[..])
    ensures (exists i: nat :: DifferInPlace(p[..], q[..], i)) ==> !same
  {
    hide Crc, DifferInPlace;
    var a := Crc4(p);
    var b := Crc4(q);
    same := a == b;
    SameResult(a, b);
    if i: nat :| DifferInPlace(p[..], q[..], i) {
      PromBurstIsDetected(p[..], q[..], i);
    }
  }

  lemma SameResult(a: uint32, b: uint32)
    requires a[..28] == b[..28] == Zeros(28)
    ensures a == b <==> Result(a) == Result(b)
  {
    assert a == a[..28] + [a[28], a[29], a[30], a[31]];
    assert b == b[..28] + [b[28], b[29], b[30], b[31]];
  }
}
