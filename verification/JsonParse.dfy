/**
 The parser of cJSON.c as functions on an index into the text. The imperative parser is proved
 against these functions, and everything the text formats promise is proved about them.
 */
module JsonParse {
  import opened Bytes
  import opened Unicode
  import opened Json

  const NULL_TEXT: seq<byte> := [0x6E, 0x75, 0x6C, 0x6C]
  const FALSE_TEXT: seq<byte> := [0x66, 0x61, 0x6C, 0x73, 0x65]
  const TRUE_TEXT: seq<byte> := [0x74, 0x72, 0x75, 0x65]

  /** Jumps over blanks and control characters. */
  function Skip(s: seq<byte>, i: nat): (j: nat)
    requires i <= |s|
    ensures i <= j <= |s|
    ensures j < |s| ==> s[j] > 32
    ensures forall k :: i <= k < j ==> s[k] <= 32
    decreases |s| - i
  {
    if i < |s| && s[i] <= 32 then Skip(s, i + 1) else i
  }

  // ---------- numbers ----------

  /** Where the integer digits end: at most one leading zero, then digits if the first is not zero. */
  function IntegerEnd(s: seq<byte>, i: nat): (j: nat)
    requires i <= |s|
    ensures i <= j <= |s| && forall k :: i <= k < j ==> IsDigit(s[k])
  {
    var k := if At(s, i) == ZERO then i + 1 else i;
    if 0x31 <= At(s, k) <= 0x39 then DigitsEnd(s, k) else k
  }

  /** Where the fraction ends; it is there only when a digit follows the point. */
  function FractionEnd(s: seq<byte>, i: nat): (j: nat)
    requires i <= |s|
    ensures i <= j <= |s|
    ensures j > i ==> j > i + 1 && forall k :: i < k < j ==> IsDigit(s[k])
  {
    if At(s, i) == DOT && IsDigit(At(s, i + 1)) then DigitsEnd(s, i + 1) else i
  }

  /** Where the digits of the exponent start, when an e stands at i. */
  function ExponentDigits(s: seq<byte>, i: nat): (j: nat)
    requires i < |s|
    ensures i < j <= |s|
  {
    if At(s, i + 1) == PLUS || At(s, i + 1) == MINUS then i + 2 else i + 1
  }

  predicate IsExponentMark(b: byte) { b == 0x65 || b == 0x45 }

  /** The digits of a number as they are picked up, and where a minus sign was seen. */
  datatype Digits = Digits(negative: bool, integer: seq<byte>, fraction: seq<byte>,
                           exponentNegative: bool, exponent: seq<byte>) {
    predicate Valid() { AllDigits(integer) && AllDigits(fraction) && AllDigits(exponent) }
  }

  lemma SliceDigits(s: seq<byte>, i: nat, j: nat)
    requires i <= j <= |s| && forall k :: i <= k < j ==> IsDigit(s[k])
    ensures AllDigits(s[i..j])
  {
  }

  function ScanNumber(s: seq<byte>, i: nat): (p: Parsed<Digits>)
    requires i < |s| && (s[i] == MINUS || IsDigit(s[i]))
    ensures p.Done? && i < p.next <= |s| && p.value.Valid()
  {
    var a := if s[i] == MINUS then i + 1 else i;
    var b := IntegerEnd(s, a);
    var c := FractionEnd(s, b);
    var d := if IsExponentMark(At(s, c)) then ExponentDigits(s, c) else c;
    var e := if IsExponentMark(At(s, c)) then DigitsEnd(s, d) else c;
    SliceDigits(s, a, b);
    SliceDigits(s, if c > b then b + 1 else c, c);
    SliceDigits(s, d, e);
    Done(e, Digits(s[i] == MINUS, s[a..b], if c > b then s[b + 1..c] else [],
                   d == c + 2 && s[c + 1] == MINUS, s[d..e]))
  }

  /** The digits before and after the point are accumulated into one integer, which is scaled once. */
  function NumberValue(d: Digits): real
    requires d.Valid()
  {
    var n := DecimalValue(d.integer + d.fraction) as real;
    var subscale: int := DecimalValue(d.exponent);
    Scaled(if d.negative then -n else n, (if d.exponentNegative then -subscale else subscale) - |d.fraction|)
  }

  function ParseNumber(s: seq<byte>, i: nat): (p: Parsed<real>)
    requires i < |s| && (s[i] == MINUS || IsDigit(s[i]))
    ensures p.Done? && i < p.next <= |s|
  {
    var p := ScanNumber(s, i);
    Done(p.next, NumberValue(p.value))
  }

  // ---------- strings: the two passes ----------

  /**
   The first pass over a string body: one for every character, and one for a backslash with the next. There is
   no count when a backslash stands before the terminator, because the pass steps over it.
   */
  function FirstPass(s: seq<byte>, i: nat): Option<nat>
    requires i <= |s|
    decreases |s| - i
  {
    if i == |s| || s[i] == QUOTE then Some(0)
    else if s[i] == BACKSLASH && i + 1 == |s| then None
    else
      var more := FirstPass(s, if s[i] == BACKSLASH then i + 2 else i + 1);
      if more.None? then None else Some(1 + more.value)
  }

  /** Where the first pass stops, unless it steps over the terminator. */
  function BodyEnd(s: seq<byte>, i: nat): (j: nat)
    requires i <= |s|
    ensures i <= j <= |s|
    ensures j < |s| ==> s[j] == QUOTE
    decreases |s| - i
  {
    if i == |s| || s[i] == QUOTE then i
    else if s[i] != BACKSLASH then BodyEnd(s, i + 1)
    else if i + 1 == |s| then |s|
    else BodyEnd(s, i + 2)
  }

  /** The bytes for two escaped code units, of which the first is a high surrogate. */
  function PairBytes(high: nat, u2: nat): seq<byte>
    requires IsHigh(high)
  {
    if !IsLow(u2) then []
    else
      CombineInvertsUtf16(high, u2);
      Utf8(Combine(high, u2))
  }

  /**
   One step of the second pass: the index after the character or escape at i, and the bytes for it; or none, when it
   steps over the terminator. It takes any four characters behind \u, also a quotation mark or a backslash.
   */
  function DecodeStep(s: seq<byte>, i: nat): (r: Option<(nat, seq<byte>)>)
    requires i < |s| && s[i] != QUOTE
    ensures r.Some? ==> i < r.value.0 <= |s|
  {
    if s[i] != BACKSLASH then Some((i + 1, [s[i]]))
    else if i + 1 == |s| then None
    else if s[i + 1] != LETTER_U then Some((i + 2, [SimpleEscape(s[i + 1])]))
    else if i + 6 > |s| then None
    else
      var uc := HexValue(s[i + 2..i + 6]);
      if IsLow(uc) || uc == 0 then Some((i + 6, []))
      else if !IsHigh(uc) then Some((i + 6, Utf8(uc)))
      else if At(s, i + 6) != BACKSLASH || At(s, i + 7) != LETTER_U then Some((i + 6, []))
      else if i + 12 > |s| then None
      else Some((i + 12, PairBytes(uc, HexValue(s[i + 8..i + 12]))))
  }

  /** The second pass over a string body: where it stops, and all the bytes it stores before the terminator. */
  function SecondPass(s: seq<byte>, i: nat): (r: Option<(nat, seq<byte>)>)
    requires i <= |s|
    ensures r.Some? ==> i <= r.value.0 <= |s| && (r.value.0 < |s| ==> s[r.value.0] == QUOTE)
    decreases |s| - i
  {
    if i == |s| || s[i] == QUOTE then Some((i, []))
    else
      var step := DecodeStep(s, i);
      if step.None? then None
      else
        var rest := SecondPass(s, step.value.0);
        if rest.None? then None else Some((rest.value.0, step.value.1 + rest.value.1))
  }

  /** What C defines: both passes stay inside the text, and the second inside the block that the first has counted. */
  predicate InBounds(s: seq<byte>, i: nat)
    requires i <= |s|
  {
    FirstPass(s, i).Some? && SecondPass(s, i).Some? && |SecondPass(s, i).value.1| <= FirstPass(s, i).value
  }

  lemma DecodeStepNulFree(s: seq<byte>, i: nat)
    requires NulFree(s) && i < |s| && s[i] != QUOTE && DecodeStep(s, i).Some?
    ensures NulFree(DecodeStep(s, i).value.1)
  {
  }

  /** A decoded string has no terminator inside. */
  lemma {:induction false} DecodeNulFree(s: seq<byte>, i: nat)
    requires NulFree(s) && i <= |s| && SecondPass(s, i).Some?
    ensures NulFree(SecondPass(s, i).value.1)
    decreases |s| - i
  {
    if i < |s| && s[i] != QUOTE {
      hide DecodeStep;
      DecodeStepNulFree(s, i);
      DecodeNulFree(s, DecodeStep(s, i).value.0);
    }
  }

  // ---------- strings: complete escapes ----------

  /**
   Every escape of the string body at i is complete before the body ends: a backslash is followed
   by a character, and \u by four characters that neither end the body nor start an escape.
   */
  predicate BodyComplete(s: seq<byte>, i: nat)
    requires i <= |s|
    decreases |s| - i
  {
    if i == |s| || s[i] == QUOTE then true
    else if s[i] != BACKSLASH then BodyComplete(s, i + 1)
    else
      && i + 1 < |s|
      && (s[i + 1] == LETTER_U ==> i + 6 <= |s| && forall k :: i + 2 <= k < i + 6 ==>
        s[k] != QUOTE && s[k] != BACKSLASH)
      && BodyComplete(s, i + 2)
  }

  /** Complete escapes after every quotation mark of a text, and so in every string parsed from it. */
  predicate EscapesComplete(s: seq<byte>) {
    forall q :: 0 <= q < |s| && s[q] == QUOTE ==> BodyComplete(s, q + 1)
  }

  lemma PlainChar(s: seq<byte>, i: nat)
    requires i < |s| && BodyComplete(s, i) && s[i] != QUOTE && s[i] != BACKSLASH
    ensures BodyComplete(s, i + 1) && BodyEnd(s, i) == BodyEnd(s, i + 1)
    ensures FirstPass(s, i + 1).Some? ==> FirstPass(s, i) == Some(1 + FirstPass(s, i + 1).value)
  {
  }

  lemma FourPlainChars(s: seq<byte>, i: nat)
    requires i + 4 <= |s| && BodyComplete(s, i)
    requires forall k :: i <= k < i + 4 ==> s[k] != QUOTE && s[k] != BACKSLASH
    ensures BodyComplete(s, i + 4) && BodyEnd(s, i) == BodyEnd(s, i + 4)
    ensures FirstPass(s, i + 4).Some? ==> FirstPass(s, i) == Some(4 + FirstPass(s, i + 4).value)
  {
    PlainChar(s, i);
    PlainChar(s, i + 1);
    PlainChar(s, i + 2);
    PlainChar(s, i + 3);
  }

  /**
   In a complete body both passes agree on where the next character is, and the second stores no more for it than the
   first counts.
   */
  lemma DecodeStepFits(s: seq<byte>, i: nat)
    requires i < |s| && s[i] != QUOTE && BodyComplete(s, i)
    ensures DecodeStep(s, i).Some?
    ensures var (next, out) := DecodeStep(s, i).value;
      && BodyComplete(s, next) && BodyEnd(s, next) == BodyEnd(s, i)
      && (FirstPass(s, next).Some? ==>
        FirstPass(s, i).Some? && |out| + FirstPass(s, next).value <= FirstPass(s, i).value)
  {
    if s[i] == BACKSLASH && s[i + 1] == LETTER_U {
      FourPlainChars(s, i + 2);
      var uc := HexValue(s[i + 2..i + 6]);
      if IsHigh(uc) && At(s, i + 6) == BACKSLASH && At(s, i + 7) == LETTER_U {
        FourPlainChars(s, i + 8);
      }
    }
  }

  /**
   Complete escapes are enough: the two passes stop at the same place, and what is stored never exceeds what was
   allocated.
   */
  lemma {:induction false} DecodeFits(s: seq<byte>, i: nat)
    requires i <= |s| && BodyComplete(s, i)
    ensures InBounds(s, i) && SecondPass(s, i).value.0 == BodyEnd(s, i)
    decreases |s| - i
  {
    if i < |s| && s[i] != QUOTE {
      hide DecodeStep;
      DecodeStepFits(s, i);
      DecodeFits(s, DecodeStep(s, i).value.0);
    }
  }

  /** What a complete body is decoded to. */
  function DecodeBody(s: seq<byte>, i: nat): (d: seq<byte>)
    requires i <= |s| && BodyComplete(s, i)
  {
    DecodeFits(s, i);
    SecondPass(s, i).value.1
  }

  // ---------- strings: incomplete escapes ----------

  /** The first pass from q on, up to e: the index that it comes to, and what it has counted. */
  function FirstPassTo(s: seq<byte>, q: nat, e: nat): (nat, nat)
    requires q <= |s|
    decreases |s| - q
  {
    if q >= e || q == |s| || s[q] == QUOTE || (s[q] == BACKSLASH && q + 1 == |s|) then (q, 0)
    else
      var (r, t) := FirstPassTo(s, if s[q] == BACKSLASH then q + 2 else q + 1, e);
      (r, t + 1)
  }

  /** It comes to e or, inside an escape, one behind it, and counts at least one for any two characters. */
  lemma {:induction false} CountedTo(s: seq<byte>, q: nat, e: nat)
    requires q <= |s| && q <= e + 1 && e <= BodyEnd(s, q) && FirstPass(s, q).Some?
    ensures var (r, t) := FirstPassTo(s, q, e);
      && e <= r <= e + 1 && r <= |s| && r - q <= 2 * t && BodyEnd(s, r) == BodyEnd(s, q)
      && FirstPass(s, r).Some? && FirstPass(s, q).value == t + FirstPass(s, r).value
    decreases |s| - q
  {
    if q < e {
      CountedTo(s, if s[q] == BACKSLASH then q + 2 else q + 1, e);
    }
  }

  /** How many bytes a step of the second pass stores for the characters that it takes. */
  lemma StepSize(s: seq<byte>, p: nat)
    requires p < |s| && s[p] != QUOTE && DecodeStep(s, p).Some?
    ensures var (next, out) := DecodeStep(s, p).value;
      && (s[p] != BACKSLASH ==> next == p + 1 && |out| == 1)
      && (s[p] == BACKSLASH ==> next >= p + 2 && 2 * |out| <= next - p)
  {
  }

  /**
   Where the second pass, from p on, stops no later than the first, from there or from the next index, it stores no
   more than that counts.
   */
  lemma {:induction false} StopsInTime(s: seq<byte>, p: nat, q: nat)
    requires p <= q <= p + 1 && q <= |s| && FirstPass(s, q).Some? && SecondPass(s, p).Some?
    requires SecondPass(s, p).value.0 <= BodyEnd(s, q)
    ensures |SecondPass(s, p).value.1| <= FirstPass(s, q).value + (q - p)
    decreases |s| - p
  {
    hide DecodeStep;
    if p < |s| && s[p] != QUOTE {
      StepSize(s, p);
      var next := DecodeStep(s, p).value.0;
      CountedTo(s, q, next);
      var (r, t) := FirstPassTo(s, q, next);
      StopsInTime(s, next, r);
    }
  }

  /** Enough for every body: that the second pass stays inside the text and stops no later than the first. */
  lemma EarlyStopIsInBounds(s: seq<byte>, i: nat)
    requires i <= |s| && FirstPass(s, i).Some? && SecondPass(s, i).Some? && SecondPass(s, i).value.0 <= BodyEnd(s, i)
    ensures InBounds(s, i)
  {
    StopsInTime(s, i, i);
  }

  /** A body whose first \u takes its closing quotation mark for one of its four characters. */
  const OVERFLOWING: seq<byte> := [BACKSLASH, LETTER_U, 0x31, QUOTE, COMMA, QUOTE] + EIGHT_LETTERS + [QUOTE]

  const EIGHT_LETTERS: seq<byte> := [0x61, 0x62, 0x63, 0x64, 0x65, 0x66, 0x67, 0x68]

  /** An escape that holds an escaped quotation mark, and closes behind it. */
  const HARMLESS: seq<byte> := [BACKSLASH, LETTER_U, 0x31, 0x32, BACKSLASH, QUOTE, 0x33, 0x34, QUOTE]

  /**
   An incomplete escape may overflow the block although every byte that is read stands in the text: two are counted,
   nine are stored.
   */
  lemma IncompleteEscapeOverflows()
    ensures !BodyComplete(OVERFLOWING, 0) && FirstPass(OVERFLOWING, 0) == Some(2) && !InBounds(OVERFLOWING, 0)
    ensures SecondPass(OVERFLOWING, 0) == Some((14, [1] + EIGHT_LETTERS))
  {
    var s := OVERFLOWING;
    assert FirstPass(s, 3) == Some(0) && FirstPass(s, 2) == Some(1);
    FourCharacters(0x31, QUOTE, COMMA, QUOTE);
    assert s[2..6] == [0x31, QUOTE, COMMA, QUOTE] && Utf8(1) == [1];
    assert DecodeStep(s, 0) == Some((6, [1]));
    PlainRun(s, 6, 14);
    assert s[6..14] == EIGHT_LETTERS;
  }

  /** And it need not. */
  lemma IncompleteEscapeMayBeHarmless()
    ensures !BodyComplete(HARMLESS, 0) && InBounds(HARMLESS, 0)
    ensures SecondPass(HARMLESS, 0) == Some((8, [0x12, 0x33, 0x34]))
  {
    var t := HARMLESS;
    assert FirstPass(t, 8) == Some(0) && FirstPass(t, 7) == Some(1);
    assert FirstPass(t, 6) == Some(2) && FirstPass(t, 4) == Some(3);
    assert FirstPass(t, 3) == Some(4) && FirstPass(t, 2) == Some(5);
    FourCharacters(0x31, 0x32, BACKSLASH, QUOTE);
    assert t[2..6] == [0x31, 0x32, BACKSLASH, QUOTE] && Utf8(0x12) == [0x12];
    assert DecodeStep(t, 0) == Some((6, [0x12]));
    PlainRun(t, 6, 8);
    assert [0x12] + t[6..8] == [0x12, 0x33, 0x34];
  }

  lemma FourCharacters(a: byte, b: byte, c: byte, d: byte)
    ensures HexValue([a, b, c, d]) == HexAnd(HexAnd(HexAnd(HexAnd(0, a), b), c), d)
  {
    assert [a, b, c, d][..3] == [a, b, c] && [a, b, c][..2] == [a, b] && [a, b][..1] == [a] && [a][..0] == [];
    assert HexValue([a]) == HexAnd(0, a);
    assert HexValue([a, b]) == HexAnd(HexAnd(0, a), b);
    assert HexValue([a, b, c]) == HexAnd(HexAnd(HexAnd(0, a), b), c);
  }

  function HexAnd(v: nat, b: byte): nat {
    if HexDigit(b).None? then v else v * 16 + HexDigit(b).value
  }

  /** Plain characters up to a quotation mark are copied. */
  lemma {:induction false} PlainRun(s: seq<byte>, i: nat, e: nat)
    requires i <= e < |s| && s[e] == QUOTE && forall k :: i <= k < e ==> s[k] != QUOTE && s[k] != BACKSLASH
    ensures SecondPass(s, i) == Some((e, s[i..e]))
    decreases e - i
  {
    if i < e {
      PlainRun(s, i + 1, e);
      assert s[i..e] == [s[i]] + s[i + 1..e];
    }
  }

  function ParseString(s: seq<byte>, i: nat): (p: Parsed<seq<byte>>)
    requires i <= |s|
    ensures p.Done? ==> i < p.next <= |s|
    ensures p.Fail? ==> p.at <= |s|
  {
    if At(s, i) != QUOTE then Fail(i)
    else if !InBounds(s, i + 1) then OutOfBounds
    else
      var (end, text) := SecondPass(s, i + 1).value;
      Done(if end < |s| then end + 1 else end, text)
  }

  // ---------- values ----------

  function AsString(p: Parsed<seq<byte>>): Parsed<Value> {
    match p
    case Done(next, text) => Done(next, String(text))
    case Fail(at) => Fail(at)
    case OutOfBounds => OutOfBounds
  }

  function AsNumber(p: Parsed<real>): Parsed<Value> {
    match p
    case Done(next, number) => Done(next, Number(number))
    case Fail(at) => Fail(at)
    case OutOfBounds => OutOfBounds
  }

  function AsArray(p: Parsed<seq<Value>>): Parsed<Value> {
    match p
    case Done(next, items) => Done(next, Array(items))
    case Fail(at) => Fail(at)
    case OutOfBounds => OutOfBounds
  }

  function AsObject(p: Parsed<seq<Member>>): Parsed<Value> {
    match p
    case Done(next, members) => Done(next, Object(members))
    case Fail(at) => Fail(at)
    case OutOfBounds => OutOfBounds
  }

  function AsMember(name: seq<byte>, p: Parsed<Value>): Parsed<Member> {
    match p
    case Done(next, value) => Done(next, Member(name, value))
    case Fail(at) => Fail(at)
    case OutOfBounds => OutOfBounds
  }

  function Prepend<T>(x: T, p: Parsed<seq<T>>): Parsed<seq<T>> {
    match p
    case Done(next, xs) => Done(next, [x] + xs)
    case Fail(at) => Fail(at)
    case OutOfBounds => OutOfBounds
  }

  function ParseValue(s: seq<byte>, i: nat): (p: Parsed<Value>)
    requires i <= |s|
    ensures p.Done? ==> i < p.next <= |s|
    ensures p.Fail? ==> p.at <= |s|
    decreases |s| - i, 1
  {
    if Occurs(s, i, NULL_TEXT) then Done(i + 4, Null)
    else if Occurs(s, i, FALSE_TEXT) then Done(i + 5, False)
    else if Occurs(s, i, TRUE_TEXT) then Done(i + 4, True)
    else if At(s, i) == QUOTE then AsString(ParseString(s, i))
    else if At(s, i) == MINUS || IsDigit(At(s, i)) then AsNumber(ParseNumber(s, i))
    else if At(s, i) == LBRACKET then
      var j := Skip(s, i + 1);
      if At(s, j) == RBRACKET then Done(j + 1, Array([]))
      else AsArray(ParseItems(s, j))
    else if At(s, i) == LBRACE then
      var j := Skip(s, i + 1);
      if At(s, j) == RBRACE then Done(j + 1, Object([]))
      else AsObject(ParseMembers(s, j))
    else Fail(i)
  }

  /** The items of an array from the one at i to the closing bracket. */
  function ParseItems(s: seq<byte>, i: nat): (p: Parsed<seq<Value>>)
    requires i <= |s|
    ensures p.Done? ==> i < p.next <= |s| && |p.value| > 0
    ensures p.Fail? ==> p.at <= |s|
    decreases |s| - i, 2
  {
    match ParseValue(s, Skip(s, i))
    case OutOfBounds => OutOfBounds
    case Fail(at) => Fail(at)
    case Done(next, item) =>
      var j := Skip(s, next);
      if At(s, j) == COMMA then Prepend(item, ParseItems(s, j + 1))
      else if At(s, j) == RBRACKET then Done(j + 1, [item])
      else Fail(j)
  }

  /** The member of an object at i: its name, a colon and its value. */
  function ParseMember(s: seq<byte>, i: nat): (p: Parsed<Member>)
    requires i <= |s|
    ensures p.Done? ==> i < p.next <= |s|
    ensures p.Fail? ==> p.at <= |s|
    decreases |s| - i, 2
  {
    match ParseString(s, Skip(s, i))
    case OutOfBounds => OutOfBounds
    case Fail(at) => Fail(at)
    case Done(next, name) =>
      var j := Skip(s, next);
      if At(s, j) != COLON then Fail(j)
      else AsMember(name, ParseValue(s, Skip(s, j + 1)))
  }

  /** The members of an object from the one at i to the closing brace. */
  function ParseMembers(s: seq<byte>, i: nat): (p: Parsed<seq<Member>>)
    requires i <= |s|
    ensures p.Done? ==> i < p.next <= |s| && |p.value| > 0
    ensures p.Fail? ==> p.at <= |s|
    decreases |s| - i, 3
  {
    match ParseMember(s, i)
    case OutOfBounds => OutOfBounds
    case Fail(at) => Fail(at)
    case Done(next, member) =>
      var j := Skip(s, next);
      if At(s, j) == COMMA then Prepend(member, ParseMembers(s, j + 1))
      else if At(s, j) == RBRACE then Done(j + 1, [member])
      else Fail(j)
  }

  /** A whole text, with or without the demand that nothing but blanks follows the value. */
  function ParseText(s: seq<byte>, requireEnd: bool): (p: Parsed<Value>)
    ensures p.Done? ==> 0 < p.next <= |s|
    ensures p.Done? && requireEnd ==> p.next == |s|
  {
    var p := ParseValue(s, Skip(s, 0));
    if !p.Done? || !requireEnd then p
    else
      var end := Skip(s, p.next);
      if end == |s| then Done(end, p.value) else Fail(end)
  }

  // ---------- the equations of the parser ----------

  lemma SkipTwice(s: seq<byte>, i: nat)
    requires i <= |s|
    ensures Skip(s, Skip(s, i)) == Skip(s, i)
  {
  }

  lemma ItemsFromSkip(s: seq<byte>, i: nat)
    requires i <= |s|
    ensures ParseItems(s, Skip(s, i)) == ParseItems(s, i)
  {
    hide ParseValue;
    SkipTwice(s, i);
  }

  lemma MemberFromSkip(s: seq<byte>, i: nat)
    requires i <= |s|
    ensures ParseMember(s, Skip(s, i)) == ParseMember(s, i)
  {
    hide ParseValue, ParseString;
    SkipTwice(s, i);
  }

  lemma MembersFromSkip(s: seq<byte>, i: nat)
    requires i <= |s|
    ensures ParseMembers(s, Skip(s, i)) == ParseMembers(s, i)
  {
    hide ParseMember;
    MemberFromSkip(s, i);
  }

  lemma ItemsLast(s: seq<byte>, i: nat, n: nat, item: Value)
    requires i <= |s| && ParseValue(s, Skip(s, i)) == Done(n, item) && At(s, Skip(s, n)) == RBRACKET
    ensures ParseItems(s, i) == Done(Skip(s, n) + 1, [item])
  {
    hide ParseValue;
  }

  lemma ItemsMore(s: seq<byte>, i: nat, n: nat, item: Value)
    requires i <= |s| && ParseValue(s, Skip(s, i)) == Done(n, item) && At(s, Skip(s, n)) == COMMA
    ensures ParseItems(s, i) == Prepend(item, ParseItems(s, Skip(s, n) + 1))
  {
    hide ParseValue, Skip, At;
  }

  lemma MembersLast(s: seq<byte>, i: nat, n: nat, member: Member)
    requires i <= |s| && ParseMember(s, i) == Done(n, member) && At(s, Skip(s, n)) == RBRACE
    ensures ParseMembers(s, i) == Done(Skip(s, n) + 1, [member])
  {
    hide ParseMember;
  }

  lemma MembersMore(s: seq<byte>, i: nat, n: nat, member: Member)
    requires i <= |s| && ParseMember(s, i) == Done(n, member) && At(s, Skip(s, n)) == COMMA
    ensures ParseMembers(s, i) == Prepend(member, ParseMembers(s, Skip(s, n) + 1))
  {
    hide ParseMember;
  }

  lemma NamedMember(s: seq<byte>, i: nat, n: nat, name: seq<byte>)
    requires i <= |s| && ParseString(s, Skip(s, i)) == Done(n, name) && At(s, Skip(s, n)) == COLON
    ensures ParseMember(s, i) == AsMember(name, ParseValue(s, Skip(s, Skip(s, n) + 1)))
  {
    hide ParseValue, ParseString;
  }

  lemma NotALiteral(s: seq<byte>, i: nat)
    requires i < |s| && s[i] != 0x6E && s[i] != 0x66 && s[i] != 0x74
    ensures !Occurs(s, i, NULL_TEXT) && !Occurs(s, i, FALSE_TEXT) && !Occurs(s, i, TRUE_TEXT)
  {
    if i + 4 <= |s| { assert s[i..i + 4][0] == s[i]; }
    if i + 5 <= |s| { assert s[i..i + 5][0] == s[i]; }
  }

  lemma ArrayAt(s: seq<byte>, i: nat)
    requires i < |s| && s[i] == LBRACKET
    ensures ParseValue(s, i) ==
      if At(s, Skip(s, i + 1)) == RBRACKET then Done(Skip(s, i + 1) + 1, Array([]))
      else AsArray(ParseItems(s, i + 1))
  {
    hide ParseItems, ParseMembers, ParseString, ParseNumber;
    NotALiteral(s, i);
    ItemsFromSkip(s, i + 1);
  }

  lemma ObjectAt(s: seq<byte>, i: nat)
    requires i < |s| && s[i] == LBRACE
    ensures ParseValue(s, i) ==
      if At(s, Skip(s, i + 1)) == RBRACE then Done(Skip(s, i + 1) + 1, Object([]))
      else AsObject(ParseMembers(s, i + 1))
  {
    hide ParseItems, ParseMembers, ParseString, ParseNumber;
    NotALiteral(s, i);
    MembersFromSkip(s, i + 1);
  }

  lemma StringAt(s: seq<byte>, i: nat)
    requires i < |s| && s[i] == QUOTE
    ensures ParseValue(s, i) == AsString(ParseString(s, i))
  {
    hide ParseItems, ParseMembers, ParseString, ParseNumber;
    NotALiteral(s, i);
  }

  lemma NumberAt(s: seq<byte>, i: nat)
    requires i < |s| && (s[i] == MINUS || IsDigit(s[i]))
    ensures ParseValue(s, i) == AsNumber(ParseNumber(s, i))
  {
    hide ParseItems, ParseMembers, ParseString, ParseNumber;
    NotALiteral(s, i);
  }

  // ---------- malformed texts ----------

  /** A text whose strings have complete escapes is parsed within its bounds, well formed or not. */
  lemma {:induction false} CompleteEscapesSuffice(s: seq<byte>, i: nat)
    requires i <= |s| && EscapesComplete(s)
    ensures !ParseValue(s, i).OutOfBounds?
    decreases |s| - i, 1
  {
    hide ParseItems, ParseMembers, ParseNumber, ParseString, BodyComplete, Skip;
    CompleteString(s, i);
    if At(s, i) == LBRACKET {
      CompleteItems(s, i + 1);
      ArrayAt(s, i);
    } else if At(s, i) == LBRACE {
      CompleteMembers(s, i + 1);
      ObjectAt(s, i);
    }
  }

  lemma CompleteString(s: seq<byte>, i: nat)
    requires i <= |s| && EscapesComplete(s)
    ensures !ParseString(s, i).OutOfBounds?
  {
    hide SecondPass, FirstPass, BodyComplete;
    if At(s, i) == QUOTE { DecodeFits(s, i + 1); }
  }

  lemma {:induction false} CompleteItems(s: seq<byte>, i: nat)
    requires i <= |s| && EscapesComplete(s)
    ensures !ParseItems(s, i).OutOfBounds?
    decreases |s| - i, 2
  {
    hide ParseValue, Skip;
    CompleteEscapesSuffice(s, Skip(s, i));
    var p := ParseValue(s, Skip(s, i));
    if p.Done? && At(s, Skip(s, p.next)) == COMMA {
      CompleteItems(s, Skip(s, p.next) + 1);
    }
  }

  lemma {:induction false} CompleteMember(s: seq<byte>, i: nat)
    requires i <= |s| && EscapesComplete(s)
    ensures !ParseMember(s, i).OutOfBounds?
    decreases |s| - i, 2
  {
    hide ParseValue, ParseString, Skip;
    CompleteString(s, Skip(s, i));
    var n := ParseString(s, Skip(s, i));
    if n.Done? && At(s, Skip(s, n.next)) == COLON {
      CompleteEscapesSuffice(s, Skip(s, Skip(s, n.next) + 1));
    }
  }

  lemma {:induction false} CompleteMembers(s: seq<byte>, i: nat)
    requires i <= |s| && EscapesComplete(s)
    ensures !ParseMembers(s, i).OutOfBounds?
    decreases |s| - i, 3
  {
    hide ParseValue, ParseMember, ParseString, Skip;
    CompleteMember(s, i);
    var p := ParseMember(s, i);
    if p.Done? && At(s, Skip(s, p.next)) == COMMA {
      CompleteMembers(s, Skip(s, p.next) + 1);
    }
  }
}
