/**
 JSON values, and the numbers and strings in them as the parser reads them off the text.
 */
module Json {
  import opened Bytes
  import opened Unicode

  /** The abstract tree: what a cJSON structure stands for, without addresses. */
  datatype Value =
    | Null
    | False
    | True
    | Number(number: real)
    | String(text: seq<byte>)
    | Array(items: seq<Value>)
    | Object(members: seq<Member>)

  datatype Member = Member(name: seq<byte>, value: Value)

  /**
   A parse from some index: the index after it and its value, the index where it failed, or, when
   the parser would read behind the text or write behind a block, nothing that C defines.
   */
  datatype Parsed<+T> = Done(next: nat, value: T) | Fail(at: nat) | OutOfBounds

  // ---------- numbers ----------

  predicate IsDigit(b: byte) { 0x30 <= b <= 0x39 }

  predicate AllDigits(s: seq<byte>) {
    forall k :: 0 <= k < |s| ==> IsDigit(s[k])
  }

  /** The end of the run of digits that starts at i. */
  function DigitsEnd(s: seq<byte>, i: nat): (j: nat)
    requires i <= |s|
    ensures i <= j <= |s|
    ensures forall k :: i <= k < j ==> IsDigit(s[k])
    ensures j < |s| ==> !IsDigit(s[j])
    decreases |s| - i
  {
    if i < |s| && IsDigit(s[i]) then DigitsEnd(s, i + 1) else i
  }

  /** The number that digits denote in base ten. */
  function DecimalValue(d: seq<byte>): nat
    requires AllDigits(d)
  {
    if |d| == 0 then 0
    else DecimalValue(d[..|d| - 1]) * 10 + (d[|d| - 1] - 0x30)
  }

  /** x times ten to the power e. */
  function Scaled(x: real, e: int): real
    decreases if e < 0 then -e else e
  {
    if e == 0 then x
    else if e > 0 then 10.0 * Scaled(x, e - 1)
    else Scaled(x, e + 1) / 10.0
  }

  /** Truncation toward zero, as a C cast from double to int does where it is defined. */
  function Truncate(r: real): (t: int)
    ensures r >= 0.0 ==> t >= 0 && t as real <= r < t as real + 1.0
    ensures r <= 0.0 ==> t <= 0 && t as real - 1.0 < r <= t as real
  {
    if r >= 0.0 then r.Floor else -((-r).Floor)
  }

  /** The valueint that the parser leaves in a node. */
  function ValueInt(v: Value): int {
    match v
    case Number(r) => Truncate(r)
    case True => 1
    case _ => 0
  }

  // ---------- strings ----------

  /** The value of four characters as hexadecimal digits; other characters are passed over. */
  function HexValue(h: seq<byte>): (v: nat)
    ensures |h| == 0 ==> v == 0
    ensures |h| <= 1 ==> v < 0x10
    ensures |h| <= 2 ==> v < 0x100
    ensures |h| <= 3 ==> v < 0x1000
    ensures |h| <= 4 ==> v < 0x10000
  {
    if |h| == 0 then 0
    else
      var rest := HexValue(h[..|h| - 1]);
      var d := HexDigit(h[|h| - 1]);
      if d.None? then rest else rest * 16 + d.value
  }

  function HexDigit(b: byte): (d: Option<nat>)
    ensures d.Some? ==> d.value < 16
  {
    if 0x30 <= b <= 0x39 then Some(b - 0x30)
    else if 0x41 <= b <= 0x46 then Some(b - 0x41 + 10)
    else if 0x61 <= b <= 0x66 then Some(b - 0x61 + 10)
    else None
  }

  const LOWER_HEX: string := "0123456789abcdef"
  const UPPER_HEX: string := "0123456789ABCDEF"

  /** The hexadecimal digits, in both cases, and no other characters. */
  lemma HexDigitsAre(b: byte, d: nat)
    requires d < 16
    ensures HexDigit(b) == Some(d) <==> b as char == LOWER_HEX[d] || b as char == UPPER_HEX[d]
  {
  }

  /** What the two-character escape \c stands for: itself, except for five letters. */
  function SimpleEscape(c: byte): byte {
    match c
    case 0x62 => 0x08
    case 0x66 => 0x0C
    case 0x6E => 0x0A
    case 0x72 => 0x0D
    case 0x74 => 0x09
    case _ => c
  }
}
