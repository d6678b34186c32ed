/**
 What string escapes mean in terms of Unicode: every spelling of a text comes out as its UTF-8, and
 a run of escaped code units is decoded as UTF-16 with the ill-formed parts and U+0000 left out.
 */
module Spelling {
  import opened Bytes
  import opened Unicode
  import opened Json
  import opened Grammar

  /** One character of a string as a writer may spell it. */
  datatype Spelled =
    | Plain(b: byte)
    | Named(c: byte)
    | OneUnit(cp: nat, hex: seq<byte>)
    | TwoUnits(cp: nat, high: seq<byte>, low: seq<byte>)
  {
    /** The escapes spell the UTF-16 code units of the code point. */
    predicate Valid() {
      match this
      case Plain(b) => ValidChar(Raw(b))
      case Named(c) => ValidChar(Escape(c))
      case OneUnit(cp, hex) => 0 < cp < 0x10000 && IsScalar(cp) && ValidChar(Unit(hex)) && Utf16(cp) == [HexValue(hex)]
      case TwoUnits(cp, high, low) =>
        && 0x10000 <= cp && IsScalar(cp) && ValidChar(Unit(high)) && ValidChar(Unit(low))
        && Utf16(cp) == [HexValue(high), HexValue(low)]
    }

    function Chars(): seq<StrChar> {
      match this
      case Plain(b) => [Raw(b)]
      case Named(c) => [Escape(c)]
      case OneUnit(_, hex) => [Unit(hex)]
      case TwoUnits(_, high, low) => [Unit(high), Unit(low)]
    }

    function Bytes(): seq<byte>
      requires Valid()
    {
      match this
      case Plain(b) => [b]
      case Named(c) => [SimpleEscape(c)]
      case OneUnit(cp, _) => Utf8(cp)
      case TwoUnits(cp, _, _) => Utf8(cp)
    }
  }

  function AllChars(sps: seq<Spelled>): seq<StrChar> {
    if |sps| == 0 then [] else sps[0].Chars() + AllChars(sps[1..])
  }

  function AllBytes(sps: seq<Spelled>): seq<byte>
    requires forall k :: 0 <= k < |sps| ==> sps[k].Valid()
  {
    if |sps| == 0 then [] else sps[0].Bytes() + AllBytes(sps[1..])
  }

  /** Every spelling of a text is decoded to the UTF-8 of its code points. */
  lemma {:induction false} SpellingIsDecoded(sps: seq<Spelled>)
    requires forall k :: 0 <= k < |sps| ==> sps[k].Valid()
    ensures ValidChars(AllChars(sps)) && CharsMeaning(AllChars(sps)) == AllBytes(sps)
  {
    if |sps| > 0 {
      SpellingIsDecoded(sps[1..]);
      var rest := AllChars(sps[1..]);
      assert sps[0].Valid();
      match sps[0]
      case Plain(b) =>
        assert ([Raw(b)] + rest)[1..] == rest;
      case Named(c) =>
        assert ([Escape(c)] + rest)[1..] == rest;
      case OneUnit(cp, hex) =>
        assert ([Unit(hex)] + rest)[1..] == rest;
      case TwoUnits(cp, high, low) =>
        PairIsDecoded(cp, high, low, rest);
    }
  }

  lemma PairIsDecoded(cp: nat, high: seq<byte>, low: seq<byte>, rest: seq<StrChar>)
    requires TwoUnits(cp, high, low).Valid() && ValidChars(rest)
    ensures ValidChars([Unit(high), Unit(low)] + rest)
    ensures CharsMeaning([Unit(high), Unit(low)] + rest) == Utf8(cp) + CharsMeaning(rest)
  {
    hide Utf8, HexValue;
    var cs := [Unit(high), Unit(low)] + rest;
    assert cs[2..] == rest && cs[0] == Unit(high) && cs[1] == Unit(low);
    var h, l := HexValue(high), HexValue(low);
    assert h == 0xD800 + (cp - 0x10000) / 0x400 && l == 0xDC00 + (cp - 0x10000) % 0x400;
    assert cp == 0x10000 + 0x400 * (h - 0xD800) + (l - 0xDC00);
  }

  // ---------- runs of code units ----------

  /** Section 2.2 of RFC 2781, leaving out what it calls an error, with the unit looked at as W2. */
  function DecodeUtf16(units: seq<nat>): (cps: seq<nat>)
    requires forall k :: 0 <= k < |units| ==> units[k] < 0x10000
    ensures forall k :: 0 <= k < |cps| ==> IsScalar(cps[k])
  {
    if |units| == 0 then []
    else if !IsHigh(units[0]) && !IsLow(units[0]) then [units[0]] + DecodeUtf16(units[1..])
    else if IsLow(units[0]) || |units| == 1 then DecodeUtf16(units[1..])
    else if !IsLow(units[1]) then DecodeUtf16(units[2..])
    else [0x10000 + 0x400 * (units[0] - 0xD800) + (units[1] - 0xDC00)] + DecodeUtf16(units[2..])
  }

  function EncodeUtf16(cps: seq<nat>): (units: seq<nat>)
    requires forall k :: 0 <= k < |cps| ==> IsScalar(cps[k])
    ensures forall k :: 0 <= k < |units| ==> units[k] < 0x10000
  {
    if |cps| == 0 then [] else Utf16(cps[0]) + EncodeUtf16(cps[1..])
  }

  /** Decoding inverts encoding. */
  lemma {:induction false} Utf16RoundTrip(cps: seq<nat>)
    requires forall k :: 0 <= k < |cps| ==> IsScalar(cps[k])
    ensures DecodeUtf16(EncodeUtf16(cps)) == cps
  {
    if |cps| > 0 {
      Utf16RoundTrip(cps[1..]);
      var rest := EncodeUtf16(cps[1..]);
      var units := Utf16(cps[0]) + rest;
      assert units[|Utf16(cps[0])|..] == rest;
      assert cps == [cps[0]] + cps[1..];
    }
  }

  /** The UTF-8 of code points, without U+0000. */
  function EncodeUtf8(cps: seq<nat>): seq<byte>
    requires forall k :: 0 <= k < |cps| ==> IsScalar(cps[k])
  {
    if |cps| == 0 then []
    else (if cps[0] == 0 then [] else Utf8(cps[0])) + EncodeUtf8(cps[1..])
  }

  function Units(hexes: seq<seq<byte>>): seq<StrChar> {
    if |hexes| == 0 then [] else [Unit(hexes[0])] + Units(hexes[1..])
  }

  function UnitValues(hexes: seq<seq<byte>>): (units: seq<nat>)
    requires forall k :: 0 <= k < |hexes| ==> ValidChar(Unit(hexes[k]))
    ensures forall k :: 0 <= k < |units| ==> units[k] < 0x10000
  {
    if |hexes| == 0 then []
    else
      assert ValidChar(Unit(hexes[0]));
      [HexValue(hexes[0])] + UnitValues(hexes[1..])
  }

  /**
   A maximal run of escaped code units, well-formed or not, is decoded as UTF-16 and encoded as
   UTF-8, whatever stands after the run.
   */
  lemma {:induction false} RunIsDecoded(hexes: seq<seq<byte>>, rest: seq<StrChar>)
    requires forall k :: 0 <= k < |hexes| ==> ValidChar(Unit(hexes[k]))
    requires ValidChars(rest) && (rest == [] || !rest[0].Unit?)
    ensures ValidChars(Units(hexes) + rest)
    ensures CharsMeaning(Units(hexes) + rest) == EncodeUtf8(DecodeUtf16(UnitValues(hexes))) + CharsMeaning(rest)
    decreases |hexes|
  {
    if |hexes| == 0 {
      assert Units(hexes) + rest == rest;
    } else {
      hide HexValue, Utf8, CharsMeaning, DecodeUtf16, EncodeUtf8, Units, UnitValues, ValidChar, OneUnitBytes;
      var us, tail := RunCons(hexes, rest);
      RunIsDecoded(hexes[1..], rest);
      if |hexes| == 1 || !IsHigh(HexValue(hexes[0])) {
        RunSingle(hexes[0], us, tail);
        Associative(OneUnitBytes(HexValue(hexes[0])), EncodeUtf8(DecodeUtf16(us)), CharsMeaning(rest));
      } else {
        RunPair(hexes, rest);
      }
    }
  }

  lemma RunCons(hexes: seq<seq<byte>>, rest: seq<StrChar>) returns (us: seq<nat>, tail: seq<StrChar>)
    requires |hexes| > 0 && forall k :: 0 <= k < |hexes| ==> ValidChar(Unit(hexes[k]))
    requires ValidChars(rest)
    ensures forall k :: 0 <= k < |hexes[1..]| ==> ValidChar(Unit(hexes[1..][k]))
    ensures us == UnitValues(hexes[1..]) && UnitValues(hexes) == [HexValue(hexes[0])] + us
    ensures tail == Units(hexes[1..]) + rest && Units(hexes) + rest == [Unit(hexes[0])] + tail
    ensures ValidChar(Unit(hexes[0])) && (ValidChars(tail) ==> ValidChars([Unit(hexes[0])] + tail))
    ensures |hexes| == 1 ==> us == [] && tail == rest
  {
    hide HexValue;
    us, tail := UnitValues(hexes[1..]), Units(hexes[1..]) + rest;
  }

  lemma Associative(a: seq<byte>, b: seq<byte>, c: seq<byte>)
    ensures (a + b) + c == a + (b + c)
  {
  }

  /** The bytes for a unit decoded by itself. */
  function OneUnitBytes(u: nat): seq<byte>
    requires u < 0x10000
  {
    if u == 0 || IsHigh(u) || IsLow(u) then [] else Utf8(u)
  }

  /** A unit that does not look at the next one. */
  lemma RunSingle(hex: seq<byte>, us: seq<nat>, tail: seq<StrChar>)
    requires LenientChar(Unit(hex)) && LenientChars(tail) && forall k :: 0 <= k < |us| ==> us[k] < 0x10000
    requires IsHigh(HexValue(hex)) ==> us == [] && (tail == [] || !tail[0].Unit?)
    ensures CharsMeaning([Unit(hex)] + tail) == OneUnitBytes(HexValue(hex)) + CharsMeaning(tail)
    ensures EncodeUtf8(DecodeUtf16([HexValue(hex)] + us)) == OneUnitBytes(HexValue(hex)) + EncodeUtf8(DecodeUtf16(us))
  {
    hide HexValue, Utf8;
    assert ([Unit(hex)] + tail)[1..] == tail;
    var units := [HexValue(hex)] + us;
    assert units[1..] == us;
    var cps := DecodeUtf16(us);
    if !IsHigh(units[0]) && !IsLow(units[0]) {
      assert ([units[0]] + cps)[1..] == cps;
    }
  }

  lemma {:induction false} RunPair(hexes: seq<seq<byte>>, rest: seq<StrChar>)
    requires |hexes| >= 2 && forall k :: 0 <= k < |hexes| ==> ValidChar(Unit(hexes[k]))
    requires ValidChars(rest) && (rest == [] || !rest[0].Unit?) && IsHigh(HexValue(hexes[0]))
    requires ValidChars(Units(hexes) + rest)
    ensures CharsMeaning(Units(hexes) + rest) == EncodeUtf8(DecodeUtf16(UnitValues(hexes))) + CharsMeaning(rest)
    decreases |hexes|, 0
  {
    hide HexValue, Utf8, CharsMeaning, DecodeUtf16, EncodeUtf8, Units, UnitValues, PairUnitBytes;
    var us1, tail1 := RunCons(hexes, rest);
    var us, tail := RunCons(hexes[1..], rest);
    RunIsDecoded(hexes[1..][1..], rest);
    var u, u2 := HexValue(hexes[0]), HexValue(hexes[1]);
    PairOfChars(hexes[0], hexes[1], tail);
    assert UnitValues(hexes) == [u] + ([u2] + us);
    PairOfUnits(UnitValues(hexes), us);
    Associative(PairUnitBytes(u, u2), EncodeUtf8(DecodeUtf16(us)), CharsMeaning(rest));
  }

  /** The bytes for a high surrogate and the unit after it. */
  function PairUnitBytes(u: nat, u2: nat): seq<byte>
    requires IsHigh(u) && u2 < 0x10000
  {
    if IsLow(u2) then Utf8(0x10000 + 0x400 * (u - 0xD800) + (u2 - 0xDC00)) else []
  }

  lemma PairOfChars(high: seq<byte>, second: seq<byte>, tail: seq<StrChar>)
    requires LenientChar(Unit(high)) && LenientChar(Unit(second)) && LenientChars(tail) && IsHigh(HexValue(high))
    ensures LenientChars([Unit(high)] + ([Unit(second)] + tail))
    ensures CharsMeaning([Unit(high)] + ([Unit(second)] + tail))
         == PairUnitBytes(HexValue(high), HexValue(second)) + CharsMeaning(tail)
  {
    hide HexValue, Utf8;
    var cs := [Unit(high)] + ([Unit(second)] + tail);
    assert cs[1] == Unit(second) && cs[2..] == tail;
  }

  lemma PairOfUnits(units: seq<nat>, us: seq<nat>)
    requires |units| >= 2 && units[2..] == us && IsHigh(units[0])
    requires forall k :: 0 <= k < |units| ==> units[k] < 0x10000
    ensures EncodeUtf8(DecodeUtf16(units)) == PairUnitBytes(units[0], units[1]) + EncodeUtf8(DecodeUtf16(us))
  {
    hide Utf8, DecodeUtf16, EncodeUtf8;
    DecodePair(units, us);
    var cps := DecodeUtf16(us);
    if IsLow(units[1]) {
      EncodeOne(0x10000 + 0x400 * (units[0] - 0xD800) + (units[1] - 0xDC00), cps);
    } else {
      assert DecodeUtf16(units) == cps;
      assert [] + EncodeUtf8(cps) == EncodeUtf8(cps);
    }
  }

  lemma EncodeOne(cp: nat, cps: seq<nat>)
    requires IsScalar(cp) && cp != 0 && forall k :: 0 <= k < |cps| ==> IsScalar(cps[k])
    ensures EncodeUtf8([cp] + cps) == Utf8(cp) + EncodeUtf8(cps)
  {
    assert ([cp] + cps)[1..] == cps;
  }

  lemma DecodePair(units: seq<nat>, us: seq<nat>)
    requires |units| >= 2 && units[2..] == us && IsHigh(units[0])
    requires forall k :: 0 <= k < |units| ==> units[k] < 0x10000
    ensures DecodeUtf16(units) ==
      (if IsLow(units[1]) then [0x10000 + 0x400 * (units[0] - 0xD800) + (units[1] - 0xDC00)] else []) + DecodeUtf16(us)
  {
  }
}
