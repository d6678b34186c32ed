/**
 parse_number: the digits are accumulated as they are passed over, and the result is scaled once. A
 double is modelled as a real number.
 */
module NumberParser {
  import opened Bytes
  import opened Json
  import opened JsonParse
  import opened Heap

  /** Ten times what was accumulated plus the next digit, for as long as there are digits. */
  method Accumulate(text: array<byte>, ghost s: seq<byte>, ghost prefix: seq<byte>, start: nat, n0: nat)
    returns (num: nat, n: nat)
    requires CString(text, s) && start <= |s|
    requires AllDigits(prefix) && n0 == DecimalValue(prefix)
    ensures num == DigitsEnd(s, start) && AllDigits(prefix + s[start..num])
    ensures n == DecimalValue(prefix + s[start..num])
  {
    hide DecimalValue;
    num, n := start, n0;
    CharAt(text, s, num);
    assert prefix + s[start..start] == prefix;
    while '0' as int <= text[num] <= '9' as int
      invariant start <= num <= |s| && text[num] == At(s, num)
      invariant DigitsEnd(s, num) == DigitsEnd(s, start)
      invariant AllDigits(prefix + s[start..num]) && n == DecimalValue(prefix + s[start..num])
      decreases |s| - num
    {
      ghost var d := prefix + s[start..num];
      AppendDigit(d, text[num]);
      assert prefix + s[start..num + 1] == d + [text[num]];
      n := n * 10 + (text[num] - 0x30);
      num := num + 1;
      CharAt(text, s, num);
    }
  }

  lemma AppendDigit(d: seq<byte>, b: byte)
    requires AllDigits(d) && IsDigit(b)
    ensures AllDigits(d + [b]) && DecimalValue(d + [b]) == DecimalValue(d) * 10 + (b - 0x30)
  {
    assert (d + [b])[..|d + [b]| - 1] == d;
  }

  /** The integer part: one leading zero is passed over, then digits that do not start with a zero. */
  method IntegerPart(text: array<byte>, ghost s: seq<byte>, start: nat) returns (num: nat, n: nat)
    requires CString(text, s) && start <= |s|
    ensures num == IntegerEnd(s, start) && AllDigits(s[start..num]) && n == DecimalValue(s[start..num])
  {
    hide DecimalValue, DigitsEnd;
    num, n := start, 0;
    CharAt(text, s, num);
    if text[num] == '0' as int {
      num := num + 1;
    }
    CharAt(text, s, num);
    ghost var zeros := s[start..num];
    ZerosValue(zeros);
    if '1' as int <= text[num] <= '9' as int {
      ghost var k := num;
      num, n := Accumulate(text, s, zeros, num, n);
      assert s[start..num] == zeros + s[k..num];
    }
  }

  /** The fraction, if a digit follows the point: its digits are accumulated too, and counted. */
  method FractionPart(text: array<byte>, ghost s: seq<byte>, start: nat, n0: nat, ghost integer: seq<byte>)
    returns (num: nat, n: nat, scale: int, ghost fraction: seq<byte>)
    requires CString(text, s) && start <= |s| && AllDigits(integer) && n0 == DecimalValue(integer)
    ensures num == FractionEnd(s, start) && fraction == (if num > start then s[start + 1..num] else [])
    ensures scale == -|fraction| && AllDigits(fraction) && n == DecimalValue(integer + fraction)
  {
    hide DecimalValue, DigitsEnd;
    num, n, scale, fraction := start, n0, 0, [];
    assert integer + [] == integer;
    CharAt(text, s, num);
    if text[num] == '.' as int {
      CharAt(text, s, num + 1);
      if '0' as int <= text[num + 1] <= '9' as int {
        num, n := Accumulate(text, s, integer, start + 1, n);
        scale := -(num - (start + 1));
        fraction := s[start + 1..num];
        assert integer + fraction == integer + s[start + 1..num];
        SliceDigits(s, start + 1, num);
      }
    }
  }

  /** The exponent, if an e stands here; its digits may be missing. */
  method ExponentPart(text: array<byte>, ghost s: seq<byte>, start: nat)
    returns (num: nat, subscale: nat, signsubscale: int, ghost digits: seq<byte>)
    requires CString(text, s) && start <= |s|
    ensures IsExponentMark(At(s, start)) ==>
      var d := ExponentDigits(s, start);
      && num == DigitsEnd(s, d) && digits == s[d..num]
      && signsubscale == if d == start + 2 && s[start + 1] == MINUS then -1 else 1
    ensures !IsExponentMark(At(s, start)) ==> num == start && digits == [] && signsubscale == 1
    ensures AllDigits(digits) && subscale == DecimalValue(digits)
  {
    hide DecimalValue, DigitsEnd;
    num, subscale, signsubscale, digits := start, 0, 1, [];
    ZerosValue([]);
    CharAt(text, s, num);
    if text[num] == 'e' as int || text[num] == 'E' as int {
      num := num + 1;
      CharAt(text, s, num);
      if text[num] == '+' as int {
        num := num + 1;
      } else if text[num] == '-' as int {
        signsubscale, num := -1, num + 1;
      }
      ghost var d := num;
      num, subscale := Accumulate(text, s, [], num, subscale);
      digits := s[d..num];
      assert [] + s[d..num] == digits;
    }
  }

  /** parse_number */
  method ParseNumberItem(text: array<byte>, ghost s: seq<byte>, item: Node, start: nat) returns (num: nat)
    requires CString(text, s) && start < |s| && (s[start] == MINUS || IsDigit(s[start]))
    modifies item`valuedouble, item`valueint, item`typ
    ensures num == ParseNumber(s, start).next
    ensures item.valuedouble == ParseNumber(s, start).value && item.valueint == Truncate(item.valuedouble)
    ensures item.typ == TYPE_NUMBER
  {
    hide DecimalValue, Scaled, DigitsEnd, IntegerEnd, FractionEnd, ExponentDigits, ScanNumber, NumberValue;
    num := start;
    CharAt(text, s, num);
    var negative := false;
    if text[num] == '-' as int {
      negative, num := true, num + 1;
    }
    ghost var a := num;
    var n;
    num, n := IntegerPart(text, s, num);
    ghost var integer, b := s[a..num], num;
    var scale, subscale, signsubscale;
    ghost var fraction, exponent;
    num, n, scale, fraction := FractionPart(text, s, num, n, integer);
    ghost var c := num;
    num, subscale, signsubscale, exponent := ExponentPart(text, s, num);
    ghost var digits := Digits(negative, integer, fraction, signsubscale == -1, exponent);
    Scanned(s, start, a, b, c, num, digits);
    var value := Scaled(if negative then -(n as real) else n as real, scale + subscale * signsubscale);
    ValueOf(digits, n, subscale, value, scale + subscale * signsubscale);
    item.valuedouble := value;
    item.valueint := Truncate(value);
    item.typ := TYPE_NUMBER;
  }

  /** The parts of a number make up what the scan finds. */
  lemma Scanned(s: seq<byte>, i: nat, a: nat, b: nat, c: nat, e: nat, d: Digits)
    requires i < |s| && (s[i] == MINUS || IsDigit(s[i])) && a == (if s[i] == MINUS then i + 1 else i)
    requires b == IntegerEnd(s, a) && c == FractionEnd(s, b)
    requires d.negative == (s[i] == MINUS) && d.integer == s[a..b] && d.fraction == if c > b then s[b + 1..c] else []
    requires if IsExponentMark(At(s, c)) then
               var x := ExponentDigits(s, c);
               e == DigitsEnd(s, x) && d.exponent == s[x..e] && d.exponentNegative == (x == c + 2 && s[c + 1] == MINUS)
             else e == c && d.exponent == [] && !d.exponentNegative
    ensures ScanNumber(s, i) == Done(e, d)
  {
    hide DigitsEnd, IntegerEnd, FractionEnd, ExponentDigits;
  }

  lemma ValueOf(d: Digits, n: nat, subscale: nat, value: real, e: int)
    requires d.Valid() && n == DecimalValue(d.integer + d.fraction) && subscale == DecimalValue(d.exponent)
    requires e == subscale * (if d.exponentNegative then -1 else 1) - |d.fraction|
    requires value == Scaled(if d.negative then -(n as real) else n as real, e)
    ensures value == NumberValue(d)
  {
  }

  lemma ZerosValue(z: seq<byte>)
    requires z == [] || z == [ZERO]
    ensures AllDigits(z) && DecimalValue(z) == 0
  {
  }
}
