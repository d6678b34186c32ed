/**
 Every text of the grammar of RFC 8259 is accepted, consumed exactly and given its value.
 */
module Completeness {
  import opened Bytes
  import opened Unicode
  import opened Json
  import opened JsonParse
  import opened Grammar

  lemma SkipBlanks(s: seq<byte>, i: nat, w: seq<byte>)
    requires Occurs(s, i, w) && LooseBlanks(w)
    requires At(s, i + |w|) > 32 || i + |w| == |s|
    ensures Skip(s, i) == i + |w|
  {
    forall k | i <= k < i + |w|
      ensures s[k] <= 32
    {
      OccursAt(s, i, w, k - i);
    }
  }

  // ---------- numbers ----------

  /** The number that the parser picks up at i, as a text. */
  function ScannedText(s: seq<byte>, i: nat): NumberText
    requires i < |s| && (s[i] == MINUS || IsDigit(s[i]))
  {
    var a := if s[i] == MINUS then i + 1 else i;
    var b := IntegerEnd(s, a);
    var c := FractionEnd(s, b);
    NumberText(s[i] == MINUS, s[a..b], if c > b then s[b + 1..c] else [], ScannedExponent(s, c))
  }

  function ScannedExponent(s: seq<byte>, c: nat): Exponent
    requires c <= |s|
  {
    if !IsExponentMark(At(s, c)) then NoExponent
    else
      var d := ExponentDigits(s, c);
      Exponent(s[c], s[c + 1..d], s[d..DigitsEnd(s, d)])
  }

  function DigitsOf(n: NumberText): Digits {
    match n.exponent
    case NoExponent => Digits(n.negative, n.integer, n.fraction, false, [])
    case Exponent(_, sign, digits) => Digits(n.negative, n.integer, n.fraction, sign == [MINUS], digits)
  }

  lemma SlicesJoin(s: seq<byte>, a: nat, b: nat, c: nat)
    requires a <= b <= c <= |s|
    ensures s[a..b] + s[b..c] == s[a..c]
  {
  }

  lemma ScannedInteger(s: seq<byte>, a: nat)
    requires a <= |s|
    ensures LooseInteger(s[a..IntegerEnd(s, a)])
  {
    SliceDigits(s, a, IntegerEnd(s, a));
  }

  lemma ScannedFraction(s: seq<byte>, b: nat)
    requires b <= |s|
    ensures var c := FractionEnd(s, b); var d := if c > b then s[b + 1..c] else [];
      AllDigits(d) && FractionBytes(d) == s[b..c]
  {
    var c := FractionEnd(s, b);
    if c > b {
      SliceDigits(s, b + 1, c);
      SlicesJoin(s, b, b + 1, c);
      assert s[b..b + 1] == [DOT];
    }
  }

  lemma ScannedSign(s: seq<byte>, c: nat)
    requires c < |s|
    ensures var d := ExponentDigits(s, c); var sign := s[c + 1..d];
      sign in [[], [PLUS], [MINUS]] && (sign == [MINUS] <==> d == c + 2 && s[c + 1] == MINUS)
  {
    if ExponentDigits(s, c) == c + 2 { assert s[c + 1..c + 2] == [s[c + 1]]; }
  }

  lemma ScannedExponentIs(s: seq<byte>, c: nat)
    requires c <= |s|
    ensures var x := ScannedExponent(s, c);
      LooseExponent(x) && c + |ExponentBytes(x)| <= |s| && s[c..c + |ExponentBytes(x)|] == ExponentBytes(x)
    ensures ScannedExponent(s, c).Exponent? <==> IsExponentMark(At(s, c))
    ensures IsExponentMark(At(s, c)) ==>
      c + |ExponentBytes(ScannedExponent(s, c))| == DigitsEnd(s, ExponentDigits(s, c))
  {
    hide ExponentDigits, DigitsEnd;
    if IsExponentMark(At(s, c)) {
      var d := ExponentDigits(s, c);
      var e := DigitsEnd(s, d);
      SliceDigits(s, d, e);
      ScannedSign(s, c);
      SlicesJoin(s, c + 1, d, e);
      SlicesJoin(s, c, c + 1, e);
      assert s[c..c + 1] == [s[c]];
    }
  }

  /** The parser takes the digits apart as the grammar does. */
  lemma ScanIsText(s: seq<byte>, i: nat, c: nat)
    requires i < |s| && (s[i] == MINUS || IsDigit(s[i]))
    requires c == FractionEnd(s, IntegerEnd(s, if s[i] == MINUS then i + 1 else i))
    ensures ScanNumber(s, i) == Done(c + |ExponentBytes(ScannedExponent(s, c))|, DigitsOf(ScannedText(s, i)))
  {
    hide IntegerEnd, FractionEnd, ExponentDigits, DigitsEnd, At;
    ScannedExponentIs(s, c);
    if IsExponentMark(At(s, c)) {
      ScannedSign(s, c);
    } else {
      assert s[c..c] == [];
    }
  }

  /** What the parser picks up is a number of the loose grammar. */
  lemma ScannedIsNumber(s: seq<byte>, i: nat)
    requires i < |s| && (s[i] == MINUS || IsDigit(s[i]))
    ensures var n := ScannedText(s, i);
      && LooseNumber(n) && Occurs(s, i, NumberBytes(n))
      && ScanNumber(s, i) == Done(i + |NumberBytes(n)|, DigitsOf(n))
  {
    hide IntegerEnd, FractionEnd, ScannedExponent, DigitsEnd, ExponentBytes, FractionBytes, ScanNumber, DigitsOf;
    hide LooseInteger, LooseExponent, NumberBytes, Occurs;
    var n := ScannedText(s, i);
    var a := if s[i] == MINUS then i + 1 else i;
    var b := IntegerEnd(s, a);
    var c := FractionEnd(s, b);
    ScannedInteger(s, a);
    ScannedFraction(s, b);
    ScannedExponentIs(s, c);
    ScanIsText(s, i, c);
    if s[i] != MINUS { DigitIsTaken(s, i); }
    NumberOfParts(s, i, n, a, b, c, c + |ExponentBytes(n.exponent)|);
  }

  lemma NumberOfParts(s: seq<byte>, i: nat, n: NumberText, a: nat, b: nat, c: nat, e: nat)
    requires i < |s| && n.negative == (s[i] == MINUS) && a == (if n.negative then i + 1 else i)
    requires a <= b <= c <= e <= |s| && n.integer == s[a..b] && FractionBytes(n.fraction) == s[b..c]
    requires ExponentBytes(n.exponent) == s[c..e]
    ensures Occurs(s, i, NumberBytes(n)) && i + |NumberBytes(n)| == e
  {
    hide FractionBytes, ExponentBytes;
    SlicesJoin(s, b, c, e);
    SlicesJoin(s, a, b, e);
    SlicesJoin(s, i, a, e);
    assert s[i..a] == SignBytes(n.negative);
  }

  lemma DigitIsTaken(s: seq<byte>, i: nat)
    requires i < |s| && IsDigit(s[i])
    ensures IntegerEnd(s, i) > i
  {
  }

  /** Bytes that may continue a number. */
  predicate EndsNumber(s: seq<byte>, i: nat)
    requires i <= |s|
  {
    var b := At(s, i);
    !IsDigit(b) && b != DOT && !IsExponentMark(b) && b != PLUS && b != MINUS
  }

  lemma DigitsAgainst(s: seq<byte>, i: nat, d: seq<byte>)
    requires Occurs(s, i, d) && AllDigits(d)
    ensures i + |d| <= DigitsEnd(s, i)
    ensures i + |d| < DigitsEnd(s, i) ==> IsDigit(At(s, i + |d|))
  {
    var j := DigitsEnd(s, i);
    if j < i + |d| {
      OccursAt(s, i, d, j - i);
    }
  }

  lemma IntegerAgainst(s: seq<byte>, a: nat, d: seq<byte>)
    requires Occurs(s, a, d) && LooseInteger(d)
    ensures a + |d| <= IntegerEnd(s, a)
    ensures a + |d| < IntegerEnd(s, a) ==> IsDigit(At(s, a + |d|))
    ensures a + |d| == IntegerEnd(s, a) ==> d == s[a..IntegerEnd(s, a)]
  {
    OccursSlice(s, a, d);
    DigitsAgainst(s, a, d);
    if |d| > 0 {
      OccursAt(s, a, d, 0);
      if d[0] == ZERO {
        assert d == [ZERO] + d[1..];
        OccursSplit(s, a, [ZERO], d[1..]);
        DigitsAgainst(s, a + 1, d[1..]);
        if |d| > 1 { OccursAt(s, a, d, 1); }
      }
    }
  }

  lemma FractionAgainst(s: seq<byte>, b: nat, f: seq<byte>)
    requires Occurs(s, b, FractionBytes(f)) && AllDigits(f)
    ensures var e, c := b + |FractionBytes(f)|, FractionEnd(s, b);
      && e <= c && (e < c ==> At(s, e) == DOT || IsDigit(At(s, e)))
      && (e == c ==> f == if c > b then s[b + 1..c] else [])
  {
    if f != [] {
      OccursAt(s, b, FractionBytes(f), 0);
      OccursAt(s, b, FractionBytes(f), 1);
      OccursSplit(s, b, [DOT], f);
      DigitsAgainst(s, b + 1, f);
      OccursSlice(s, b + 1, f);
    }
  }

  lemma SignAgainst(s: seq<byte>, c: nat, sign: seq<byte>)
    requires c < |s| && Occurs(s, c + 1, sign) && sign in [[], [PLUS], [MINUS]]
    ensures var d := c + 1 + |sign|;
      && d <= ExponentDigits(s, c) && (d < ExponentDigits(s, c) ==> At(s, d) == PLUS || At(s, d) == MINUS)
      && (d == ExponentDigits(s, c) ==> sign == s[c + 1..d])
  {
    OccursSlice(s, c + 1, sign);
    if sign != [] { OccursAt(s, c + 1, sign, 0); }
  }

  lemma ExponentAgainst(s: seq<byte>, c: nat, x: Exponent)
    requires Occurs(s, c, ExponentBytes(x)) && LooseExponent(x) && c <= |s|
    ensures var e, last := c + |ExponentBytes(x)|, c + |ExponentBytes(ScannedExponent(s, c))|;
      e <= last <= |s| && (e < last ==> !EndsNumber(s, e)) && (e == last ==> x == ScannedExponent(s, c))
  {
    hide DigitsEnd, Occurs, ExponentDigits;
    ScannedExponentIs(s, c);
    if x.Exponent? {
      assert ExponentBytes(x) == [x.mark] + (x.sign + x.digits);
      OccursSplit(s, c, [x.mark], x.sign + x.digits);
      OccursSplit(s, c + 1, x.sign, x.digits);
      OccursAt(s, c, [x.mark], 0);
      var d := c + 1 + |x.sign|;
      SignAgainst(s, c, x.sign);
      DigitsAgainst(s, d, x.digits);
      OccursSlice(s, d, x.digits);
      if x.digits != [] { OccursAt(s, d, x.digits, 0); }
    }
  }

  lemma NumberSplit(s: seq<byte>, i: nat, n: NumberText)
    requires LooseNumber(n) && Occurs(s, i, NumberBytes(n))
    ensures i < |s| && (if n.negative then s[i] == MINUS else IsDigit(s[i]))
    ensures var a := if n.negative then i + 1 else i;
      && Occurs(s, a, n.integer)
      && Occurs(s, a + |n.integer|, FractionBytes(n.fraction))
      && Occurs(s, a + |n.integer| + |FractionBytes(n.fraction)|, ExponentBytes(n.exponent))
  {
    hide Occurs, FractionBytes, ExponentBytes;
    var f, e := FractionBytes(n.fraction), ExponentBytes(n.exponent);
    var a := if n.negative then i + 1 else i;
    OccursSplit(s, i, SignBytes(n.negative), n.integer + (f + e));
    OccursSplit(s, a, n.integer, f + e);
    OccursSplit(s, a + |n.integer|, f, e);
    if n.negative {
      OccursAt(s, i, SignBytes(n.negative), 0);
    } else {
      OccursAt(s, a, n.integer, 0);
    }
  }

  lemma TailAgainst(s: seq<byte>, b: nat, f: seq<byte>, x: Exponent)
    requires b <= |s| && Occurs(s, b, FractionBytes(f)) && AllDigits(f)
    requires Occurs(s, b + |FractionBytes(f)|, ExponentBytes(x)) && LooseExponent(x)
    ensures var e, c := b + |FractionBytes(f)| + |ExponentBytes(x)|, FractionEnd(s, b);
      var last := c + |ExponentBytes(ScannedExponent(s, c))|;
      && e <= last <= |s| && (e < last ==> !EndsNumber(s, e))
      && (e == last ==> f == (if c > b then s[b + 1..c] else []) && x == ScannedExponent(s, c))
  {
    hide FractionEnd, FractionBytes, ExponentBytes, ScannedExponent, LooseExponent, Occurs;
    var c := b + |FractionBytes(f)|;
    ScannedExponentIs(s, FractionEnd(s, b));
    FractionAgainst(s, b, f);
    FirstOfExponent(s, c, x);
    if c == FractionEnd(s, b) {
      ExponentAgainst(s, c, x);
    }
  }

  /**
   Any number of the loose grammar at i, beside the one that the parser picks up: it is no longer, if it is
   shorter some byte behind it may continue it, and if it is as long it is the same.
   */
  lemma NumberAgainst(s: seq<byte>, i: nat, n: NumberText)
    requires LooseNumber(n) && Occurs(s, i, NumberBytes(n))
    ensures i < |s| && (s[i] == MINUS || IsDigit(s[i]))
    ensures var e, last := i + |NumberBytes(n)|, i + |NumberBytes(ScannedText(s, i))|;
      e <= last <= |s| && (e < last ==> !EndsNumber(s, e)) && (e == last ==> n == ScannedText(s, i))
  {
    hide IntegerEnd, FractionEnd, FractionBytes, ExponentBytes, ScannedExponent, LooseInteger, LooseExponent, Occurs;
    hide NumberBytes, ScanNumber, ScannedText, DigitsOf, EndsNumber;
    NumberSplit(s, i, n);
    NumberLength(n);
    var a := if n.negative then i + 1 else i;
    var b := a + |n.integer|;
    IntegerAgainst(s, a, n.integer);
    var c := FractionEnd(s, IntegerEnd(s, a));
    ScannedExponentIs(s, c);
    ScannedIsNumber(s, i);
    ScanIsText(s, i, c);
    if b == IntegerEnd(s, a) {
      TailAgainst(s, b, n.fraction, n.exponent);
      if i + |NumberBytes(n)| == c + |ExponentBytes(ScannedExponent(s, c))| {
        SameNumber(s, i, n, a, b, c);
      }
    } else {
      DigitContinues(s, b);
      FirstOfFraction(s, b, n.fraction);
      FirstOfExponent(s, b + |FractionBytes(n.fraction)|, n.exponent);
    }
  }

  lemma DigitContinues(s: seq<byte>, i: nat)
    requires i <= |s| && IsDigit(At(s, i))
    ensures !EndsNumber(s, i) && At(s, i) != DOT && !IsExponentMark(At(s, i))
  {
  }

  lemma SameNumber(s: seq<byte>, i: nat, n: NumberText, a: nat, b: nat, c: nat)
    requires i < |s| && (if n.negative then s[i] == MINUS else IsDigit(s[i])) && a == (if n.negative then i + 1 else i)
    requires b == IntegerEnd(s, a) && c == FractionEnd(s, b) && n.integer == s[a..b]
    requires n.fraction == (if c > b then s[b + 1..c] else []) && n.exponent == ScannedExponent(s, c)
    ensures n == ScannedText(s, i)
  {
  }

  lemma NumberLength(n: NumberText)
    ensures |NumberBytes(n)| ==
      (if n.negative then 1 else 0) + |n.integer| + |FractionBytes(n.fraction)| + |ExponentBytes(n.exponent)|
  {
  }

  lemma FirstOfFraction(s: seq<byte>, i: nat, d: seq<byte>)
    requires Occurs(s, i, FractionBytes(d))
    ensures if d == [] then FractionBytes(d) == [] else At(s, i) == DOT
  {
    if d != [] { OccursAt(s, i, FractionBytes(d), 0); }
  }

  lemma FirstOfExponent(s: seq<byte>, i: nat, e: Exponent)
    requires Occurs(s, i, ExponentBytes(e)) && LooseExponent(e)
    ensures if e.NoExponent? then ExponentBytes(e) == [] else IsExponentMark(At(s, i))
  {
    if e.Exponent? { OccursAt(s, i, ExponentBytes(e), 0); }
  }

  /** No number of the loose grammar that stands at i is longer. */
  ghost predicate Longest(s: seq<byte>, i: nat, n: NumberText) {
    forall m: NumberText :: LooseNumber(m) && Occurs(s, i, NumberBytes(m)) ==> |NumberBytes(m)| <= |NumberBytes(n)|
  }

  lemma ScannedIsLongest(s: seq<byte>, i: nat)
    requires i < |s| && (s[i] == MINUS || IsDigit(s[i]))
    ensures Longest(s, i, ScannedText(s, i))
  {
    hide LooseNumber, NumberBytes, ScannedText, Occurs;
    forall m: NumberText | LooseNumber(m) && Occurs(s, i, NumberBytes(m))
      ensures |NumberBytes(m)| <= |NumberBytes(ScannedText(s, i))|
    {
      NumberAgainst(s, i, m);
    }
  }

  /** A number that is not continued is the longest. */
  lemma NotContinued(s: seq<byte>, i: nat, n: NumberText)
    requires LooseNumber(n) && Occurs(s, i, NumberBytes(n)) && EndsNumber(s, i + |NumberBytes(n)|)
    ensures Longest(s, i, n)
  {
    hide LooseNumber, NumberBytes, ScannedText, Occurs, EndsNumber;
    NumberAgainst(s, i, n);
    ScannedIsLongest(s, i);
  }

  /** The longest number of the loose grammar is read, and has its decimal value. */
  lemma NumberComplete(s: seq<byte>, i: nat, n: NumberText)
    requires LooseNumber(n) && Occurs(s, i, NumberBytes(n)) && Longest(s, i, n)
    ensures i < |s| && (s[i] == MINUS || IsDigit(s[i]))
    ensures ParseNumber(s, i) == Done(i + |NumberBytes(n)|, NumberMeaning(n))
  {
    hide ScanNumber, NumberMeaning, NumberBytes, LooseNumber, ScannedText, Occurs, NumberValue, DigitsOf;
    NumberAgainst(s, i, n);
    ScannedIsNumber(s, i);
    SignedMeaning(n);
  }

  /** Accumulating all digits and scaling once gives the decimal fraction the grammar means. */
  lemma SignedMeaning(n: NumberText)
    requires LooseNumber(n)
    ensures DigitsOf(n).Valid() && NumberValue(DigitsOf(n)) == NumberMeaning(n)
  {
    var k, e := |n.fraction|, ExponentMeaning(n.exponent);
    var x, y := DecimalValue(n.integer) as real, DecimalValue(n.fraction) as real;
    var digits := DecimalValue(n.integer + n.fraction) as real;
    DecimalValueAppend(n.integer, n.fraction);
    ScaledCompose(x, k, -k);
    ScaledSum(Scaled(x, k), y, -k);
    assert Scaled(digits, -k) == x + Scaled(y, -k);
    ScaledCompose(digits, -k, e);
    ScaledNegated(digits, e - k);
  }

  lemma {:induction false} DecimalValueAppend(a: seq<byte>, b: seq<byte>)
    requires AllDigits(a) && AllDigits(b)
    ensures AllDigits(a + b)
    ensures DecimalValue(a + b) as real == Scaled(DecimalValue(a) as real, |b|) + DecimalValue(b) as real
  {
    if b == [] {
      assert a + b == a;
    } else {
      var b' := b[..|b| - 1];
      DecimalValueAppend(a, b');
      assert (a + b)[..|a + b| - 1] == a + b';
    }
  }

  lemma {:induction false} ScaledSum(x: real, y: real, e: int)
    ensures Scaled(x + y, e) == Scaled(x, e) + Scaled(y, e)
    decreases if e < 0 then -e else e
  {
    if e > 0 { ScaledSum(x, y, e - 1); } else if e < 0 { ScaledSum(x, y, e + 1); }
  }

  lemma {:induction false} ScaledNegated(x: real, e: int)
    ensures Scaled(-x, e) == -Scaled(x, e)
    decreases if e < 0 then -e else e
  {
    if e > 0 { ScaledNegated(x, e - 1); } else if e < 0 { ScaledNegated(x, e + 1); }
  }

  lemma {:induction false} ScaledCompose(x: real, a: int, b: int)
    ensures Scaled(Scaled(x, a), b) == Scaled(x, a + b)
    decreases if b < 0 then -b else b
  {
    if b > 0 { ScaledCompose(x, a, b - 1); } else if b < 0 { ScaledCompose(x, a, b + 1); }
  }

  // ---------- strings ----------

  /** A string ends at a quotation mark or with the text. */
  predicate BodyEnds(s: seq<byte>, end: nat) {
    end == |s| || (end < |s| && s[end] == QUOTE)
  }

  lemma PlainCharBefore(s: seq<byte>, i: nat)
    requires i < |s| && s[i] != QUOTE && s[i] != BACKSLASH && BodyComplete(s, i + 1)
    ensures BodyComplete(s, i) && BodyEnd(s, i) == BodyEnd(s, i + 1)
  {
  }

  lemma EscapeBefore(s: seq<byte>, i: nat)
    requires i + 1 < |s| && s[i] == BACKSLASH && s[i + 1] != LETTER_U && BodyComplete(s, i + 2)
    ensures BodyComplete(s, i) && BodyEnd(s, i) == BodyEnd(s, i + 2)
  {
  }

  lemma UnitAt(s: seq<byte>, i: nat, hex: seq<byte>)
    requires |hex| == 4 && Occurs(s, i, CharBytes(Unit(hex)))
    ensures i + 6 <= |s| && s[i] == BACKSLASH && s[i + 1] == LETTER_U && s[i + 2..i + 6] == hex
  {
    OccursSplit(s, i, [BACKSLASH, LETTER_U], hex);
    OccursAt(s, i, [BACKSLASH, LETTER_U], 0);
    OccursAt(s, i, [BACKSLASH, LETTER_U], 1);
  }

  lemma UnitBefore(s: seq<byte>, i: nat, hex: seq<byte>)
    requires LenientChar(Unit(hex)) && Occurs(s, i, CharBytes(Unit(hex))) && i + 6 <= |s| && BodyComplete(s, i + 6)
    ensures BodyComplete(s, i) && BodyEnd(s, i) == BodyEnd(s, i + 6)
  {
    UnitAt(s, i, hex);
    forall k | i + 2 <= k < i + 6
      ensures s[k] != QUOTE && s[k] != BACKSLASH
    {
      assert s[i + 2..i + 6][k - i - 2] == s[k];
    }
    PlainCharBefore(s, i + 5);
    PlainCharBefore(s, i + 4);
    PlainCharBefore(s, i + 3);
    PlainCharBefore(s, i + 2);
  }

  lemma EmptyBody(s: seq<byte>, i: nat)
    requires BodyEnds(s, i)
    ensures BodyComplete(s, i) && BodyEnd(s, i) == i && SecondPass(s, i) == Some((i, CharsMeaning([])))
  {
  }

  /** Not being a Unit shows in the text: what follows is not the start of a \u escape. */
  lemma NotUnitAt(s: seq<byte>, i: nat, cs: seq<StrChar>)
    requires LooseChars(cs) && Occurs(s, i, CharsBytes(cs)) && BodyEnds(s, i + |CharsBytes(cs)|)
    requires cs != [] ==> !cs[0].Unit?
    ensures At(s, i) == BACKSLASH ==> i + 1 < |s| && s[i + 1] != LETTER_U
  {
    if cs != [] {
      assert LooseChar(cs[0]);
      OccursSplit(s, i, CharBytes(cs[0]), CharsBytes(cs[1..]));
      OccursAt(s, i, CharBytes(cs[0]), 0);
      if cs[0].Escape? {
        OccursAt(s, i, CharBytes(cs[0]), 1);
      }
    }
  }

  /** A string body with complete escapes, as its bytes show, and it ends where the first pass stops. */
  lemma {:induction false} BodyOfChars(s: seq<byte>, i: nat, cs: seq<StrChar>, end: nat)
    requires LenientChars(cs) && Occurs(s, i, CharsBytes(cs)) && end == i + |CharsBytes(cs)| && BodyEnds(s, end)
    ensures BodyComplete(s, i) && BodyEnd(s, i) == end
    decreases |cs|
  {
    hide Occurs, BodyComplete, BodyEnd;
    if cs == [] {
      EmptyBody(s, i);
    } else {
      var c, rest := cs[0], cs[1..];
      assert LenientChar(c);
      OccursSplit(s, i, CharBytes(c), CharsBytes(rest));
      OccursAt(s, i, CharBytes(c), 0);
      BodyOfChars(s, i + |CharBytes(c)|, rest, end);
      match c
      case Raw(b) =>
        PlainCharBefore(s, i);
      case Escape(e) =>
        OccursAt(s, i, CharBytes(c), 1);
        EscapeBefore(s, i);
      case Unit(hex) =>
        UnitBefore(s, i, hex);
    }
  }

  lemma DecodeOne(s: seq<byte>, i: nat, next: nat, out: seq<byte>, end: nat, rest: seq<byte>)
    requires i < |s| && s[i] != QUOTE && DecodeStep(s, i) == Some((next, out))
    requires SecondPass(s, next) == Some((end, rest))
    ensures SecondPass(s, i) == Some((end, out + rest))
  {
    hide DecodeStep;
  }

  /** The second pass over the characters of a string gives its meaning. */
  lemma {:induction false} CharsComplete(s: seq<byte>, i: nat, cs: seq<StrChar>, end: nat)
    requires LooseChars(cs) && Occurs(s, i, CharsBytes(cs)) && end == i + |CharsBytes(cs)| && BodyEnds(s, end)
    ensures SecondPass(s, i) == Some((end, CharsMeaning(cs)))
    decreases |cs|
  {
    hide SecondPass, DecodeStep, HexValue, CharsMeaning, Occurs;
    if cs == [] {
      EmptyBody(s, i);
    } else {
      var c, rest := cs[0], cs[1..];
      assert LooseChar(c) && cs == [c] + rest;
      OccursSplit(s, i, CharBytes(c), CharsBytes(rest));
      OccursAt(s, i, CharBytes(c), 0);
      CharsComplete(s, i + |CharBytes(c)|, rest, end);
      match c
      case Raw(b) =>
        RawComplete(s, i, b, rest, end);
      case Escape(e) =>
        OccursAt(s, i, CharBytes(c), 1);
        EscapeComplete(s, i, e, rest, end);
      case Unit(hex) =>
        UnitAt(s, i, hex);
        UnitComplete(s, i, hex, rest, end);
    }
  }

  lemma RawComplete(s: seq<byte>, i: nat, b: byte, rest: seq<StrChar>, end: nat)
    requires i < |s| && s[i] == b && LooseChar(Raw(b)) && LooseChars(rest)
    requires SecondPass(s, i + 1) == Some((end, CharsMeaning(rest)))
    ensures SecondPass(s, i) == Some((end, CharsMeaning([Raw(b)] + rest)))
  {
    hide SecondPass;
    assert ([Raw(b)] + rest)[1..] == rest;
    DecodeOne(s, i, i + 1, [b], end, CharsMeaning(rest));
  }

  lemma EscapeComplete(s: seq<byte>, i: nat, e: byte, rest: seq<StrChar>, end: nat)
    requires i + 1 < |s| && s[i] == BACKSLASH && s[i + 1] == e && LooseChar(Escape(e)) && LooseChars(rest)
    requires SecondPass(s, i + 2) == Some((end, CharsMeaning(rest)))
    ensures SecondPass(s, i) == Some((end, CharsMeaning([Escape(e)] + rest)))
  {
    hide SecondPass;
    assert ([Escape(e)] + rest)[1..] == rest;
    DecodeOne(s, i, i + 2, [SimpleEscape(e)], end, CharsMeaning(rest));
  }

  lemma SingleUnitMeaning(hex: seq<byte>, rest: seq<StrChar>)
    requires LooseChar(Unit(hex)) && LooseChars(rest)
    ensures var uc := HexValue(hex); var all := CharsMeaning([Unit(hex)] + rest);
      && (IsLow(uc) || uc == 0 ==> all == [] + CharsMeaning(rest))
      && (IsHigh(uc) && (rest == [] || !rest[0].Unit?) ==> all == [] + CharsMeaning(rest))
      && (!IsLow(uc) && uc != 0 && !IsHigh(uc) ==> all == Utf8(uc) + CharsMeaning(rest))
  {
    assert ([Unit(hex)] + rest)[1..] == rest;
  }

  lemma PairMeaning(hex: seq<byte>, hex2: seq<byte>, rest: seq<StrChar>)
    requires LooseChar(Unit(hex)) && LooseChar(Unit(hex2)) && LooseChars(rest) && IsHigh(HexValue(hex))
    ensures var uc, u2 := HexValue(hex), HexValue(hex2);
      CharsMeaning([Unit(hex)] + ([Unit(hex2)] + rest)) == PairBytes(uc, u2) + CharsMeaning(rest)
  {
    hide Utf8, HexValue;
    if IsLow(HexValue(hex2)) {
      CombineValue(HexValue(hex), HexValue(hex2));
    }
    var cs := [Unit(hex)] + ([Unit(hex2)] + rest);
    assert cs[2..] == rest && cs[1] == Unit(hex2);
  }

  lemma UnitComplete(s: seq<byte>, i: nat, hex: seq<byte>, rest: seq<StrChar>, end: nat)
    requires LooseChar(Unit(hex)) && LooseChars(rest) && i + 6 <= |s|
    requires Occurs(s, i + 6, CharsBytes(rest)) && end == i + 6 + |CharsBytes(rest)| && BodyEnds(s, end)
    requires s[i] == BACKSLASH && s[i + 1] == LETTER_U && s[i + 2..i + 6] == hex
    requires SecondPass(s, i + 6) == Some((end, CharsMeaning(rest)))
    ensures SecondPass(s, i) == Some((end, CharsMeaning([Unit(hex)] + rest)))
    decreases |rest|, 1
  {
    hide SecondPass, CharsMeaning, Utf8, HexValue, Occurs;
    var uc := HexValue(hex);
    SingleUnitMeaning(hex, rest);
    if IsLow(uc) || uc == 0 {
      DecodeOne(s, i, i + 6, [], end, CharsMeaning(rest));
    } else if !IsHigh(uc) {
      DecodeOne(s, i, i + 6, Utf8(uc), end, CharsMeaning(rest));
    } else if rest == [] || !rest[0].Unit? {
      NotUnitAt(s, i + 6, rest);
      DecodeOne(s, i, i + 6, [], end, CharsMeaning(rest));
    } else {
      PairCompleteInBody(s, i, hex, rest, end);
    }
  }

  lemma PairCompleteInBody(s: seq<byte>, i: nat, hex: seq<byte>, rest: seq<StrChar>, end: nat)
    requires LooseChar(Unit(hex)) && IsHigh(HexValue(hex)) && LooseChars(rest) && rest != [] && rest[0].Unit?
    requires Occurs(s, i + 6, CharsBytes(rest)) && end == i + 6 + |CharsBytes(rest)| && BodyEnds(s, end)
    requires i + 6 <= |s| && s[i] == BACKSLASH && s[i + 1] == LETTER_U && s[i + 2..i + 6] == hex
    ensures SecondPass(s, i) == Some((end, CharsMeaning([Unit(hex)] + rest)))
    decreases |rest|, 0
  {
    hide SecondPass, CharsMeaning, HexValue, DecodeStep, Occurs;
    var hex2, rest2 := rest[0].hex, rest[1..];
    assert LooseChar(rest[0]) && rest == [Unit(hex2)] + rest2;
    OccursSplit(s, i + 6, CharBytes(rest[0]), CharsBytes(rest2));
    CharsComplete(s, i + 12, rest2, end);
    UnitAt(s, i + 6, hex2);
    PairComplete(s, i, HexValue(hex), HexValue(hex2));
    DecodeOne(s, i, i + 12, PairBytes(HexValue(hex), HexValue(hex2)), end, CharsMeaning(rest2));
    PairMeaning(hex, hex2, rest2);
  }

  lemma PairComplete(s: seq<byte>, i: nat, high: nat, u2: nat)
    requires i + 12 <= |s| && s[i] == BACKSLASH && s[i + 1] == LETTER_U
    requires HexValue(s[i + 2..i + 6]) == high && IsHigh(high)
    requires s[i + 6] == BACKSLASH && s[i + 7] == LETTER_U && HexValue(s[i + 8..i + 12]) == u2
    ensures DecodeStep(s, i) == Some((i + 12, PairBytes(high, u2)))
  {
  }

  /** The outcome of parsing what the loose grammar allows: its meaning, unless C leaves the parse undefined. */
  ghost predicate Reads<T(!new)>(p: Parsed<T>, next: nat, value: T, complete: bool) {
    (p == Done(next, value) || p.OutOfBounds?) && (complete ==> !p.OutOfBounds?)
  }

  lemma BodyIsRead(s: seq<byte>, i: nat, cs: seq<StrChar>, end: nat)
    requires LooseChars(cs) && i < |s| && s[i] == QUOTE && Occurs(s, i + 1, CharsBytes(cs))
    requires end == i + 1 + |CharsBytes(cs)| && BodyEnds(s, end)
    ensures Reads(ParseString(s, i), if end < |s| then end + 1 else end, CharsMeaning(cs), LenientChars(cs))
  {
    hide SecondPass, FirstPass, CharsBytes;
    CharsComplete(s, i + 1, cs, end);
    if LenientChars(cs) {
      BodyOfChars(s, i + 1, cs, end);
      DecodeFits(s, i + 1);
    }
  }

  // ---------- values ----------

  lemma StringComplete(s: seq<byte>, i: nat, cs: seq<StrChar>, end: nat)
    requires LooseChars(cs) && Occurs(s, i, StringBytes(cs)) && end == i + |StringBytes(cs)|
    ensures Reads(ParseString(s, i), end, CharsMeaning(cs), LenientChars(cs))
  {
    hide ParseString, CharsBytes, Occurs, CharsMeaning;
    OccursSplit(s, i, [QUOTE], CharsBytes(cs) + [QUOTE]);
    OccursSplit(s, i + 1, CharsBytes(cs), [QUOTE]);
    OccursAt(s, i, [QUOTE], 0);
    OccursAt(s, i + 1 + |CharsBytes(cs)|, [QUOTE], 0);
    BodyIsRead(s, i, cs, end - 1);
  }

  lemma OpenStringComplete(s: seq<byte>, i: nat, cs: seq<StrChar>)
    requires LooseChars(cs) && Occurs(s, i, TextBytes(OpenText(cs))) && |s| == i + |TextBytes(OpenText(cs))|
    ensures Reads(ParseString(s, i), |s|, CharsMeaning(cs), LenientChars(cs))
  {
    hide ParseString, CharsBytes, Occurs, CharsMeaning;
    OccursSplit(s, i, [QUOTE], CharsBytes(cs));
    OccursAt(s, i, [QUOTE], 0);
    BodyIsRead(s, i, cs, |s|);
  }

  /** The first byte of a value tells its kind, and is neither a blank nor a closing bracket. */
  lemma FirstByte(t: Text)
    requires Loose(t)
    ensures |TextBytes(t)| > 0
    ensures var b := TextBytes(t)[0];
      match t
      case NullText => b == 0x6E
      case FalseText => b == 0x66
      case TrueText => b == 0x74
      case NumText(_) => b == MINUS || IsDigit(b)
      case StrText(_) => b == QUOTE
      case OpenText(_) => b == QUOTE
      case ArrText(_, _) => b == LBRACKET
      case ObjText(_, _) => b == LBRACE
  {
  }

  /** What may follow a value inside a text: nothing, a blank, a comma or a closing bracket. */
  predicate Follows(s: seq<byte>, i: nat)
    requires i <= |s|
  {
    At(s, i) <= 32 || At(s, i) == COMMA || At(s, i) == RBRACKET || At(s, i) == RBRACE
  }

  lemma AfterBlanks(s: seq<byte>, i: nat, w: seq<byte>, b: byte)
    requires Occurs(s, i, w) && LooseBlanks(w) && At(s, i + |w|) == b && b > 32
    ensures Skip(s, i) == i + |w|
    ensures At(s, i) <= 32 || At(s, i) == b
  {
    SkipBlanks(s, i, w);
    if w != [] { OccursAt(s, i, w, 0); }
  }

  /** The text t stands in s from i to end: a number is not cut short, and a string without its end is the rest. */
  ghost predicate Stands(s: seq<byte>, i: nat, t: Text, end: nat) {
    && Occurs(s, i, TextBytes(t)) && end == i + |TextBytes(t)|
    && (t.NumText? ==> Longest(s, i, t.n)) && (t.OpenText? ==> end == |s|)
  }

  lemma FollowedStands(s: seq<byte>, i: nat, t: Text, end: nat)
    requires Loose(t) && !t.OpenText? && Occurs(s, i, TextBytes(t)) && end == i + |TextBytes(t)|
    requires end <= |s| && Follows(s, end)
    ensures Stands(s, i, t, end)
  {
    hide Longest, Occurs;
    if t.NumText? { NotContinued(s, i, t.n); }
  }

  /** A value of the loose grammar is parsed to its last byte and gives its meaning. */
  lemma {:induction false} LooseComplete(s: seq<byte>, i: nat, t: Text, end: nat)
    requires Loose(t) && Stands(s, i, t, end)
    ensures Reads(ParseValue(s, i), end, Meaning(t), WellEscaped(t))
    decreases t, 0
  {
    hide ParseValue, ParseString, ParseNumber, CharsMeaning, NumberMeaning, Occurs, ItemsBytes, MembersBytes, Longest;
    hide ItemsMeaning, MembersMeaning, NumberBytes, CharsBytes;
    FirstByte(t);
    OccursAt(s, i, TextBytes(t), 0);
    match t
    case NumText(n) =>
      NumberAt(s, i);
      NumberComplete(s, i, n);
    case StrText(chars) =>
      StringAt(s, i);
      StringComplete(s, i, chars, end);
    case OpenText(chars) =>
      StringAt(s, i);
      OpenStringComplete(s, i, chars);
    case ArrText(blank, items) =>
      ArrayComplete(s, i, blank, items, end);
    case ObjText(blank, members) =>
      ObjectComplete(s, i, blank, members, end);
    case _ =>
      LiteralComplete(s, i, t, end);
  }

  /** A value of RFC 8259 is accepted wherever it stands. */
  lemma ValueComplete(s: seq<byte>, i: nat, t: Text, end: nat)
    requires Valid(t) && Occurs(s, i, TextBytes(t)) && end == i + |TextBytes(t)| && Follows(s, end)
    ensures ParseValue(s, i) == Done(end, Meaning(t))
  {
    hide ParseValue, Meaning, TextBytes, Occurs, Longest;
    OccursSlice(s, i, TextBytes(t));
    FollowedStands(s, i, t, end);
    LooseComplete(s, i, t, end);
  }

  lemma LiteralComplete(s: seq<byte>, i: nat, t: Text, end: nat)
    requires t.NullText? || t.FalseText? || t.TrueText?
    requires Occurs(s, i, TextBytes(t)) && end == i + |TextBytes(t)|
    ensures ParseValue(s, i) == Done(end, Meaning(t))
  {
    OccursAt(s, i, TextBytes(t), 0);
    if !t.NullText? && i + 4 <= |s| {
      assert s[i..i + 4][0] == s[i];
    }
    if t.TrueText? && i + 5 <= |s| {
      assert s[i..i + 5][0] == s[i];
    }
  }

  lemma ArrayParts(s: seq<byte>, i: nat, blank: seq<byte>, items: seq<Item>, end: nat) returns (j: nat)
    requires Occurs(s, i, TextBytes(ArrText(blank, items))) && end == i + |TextBytes(ArrText(blank, items))|
    ensures i + 1 <= j <= |s| && j == i + 1 + |blank| && Occurs(s, i + 1, blank)
    ensures |items| == 0 ==> At(s, j) == RBRACKET && end == j + 1
    ensures |items| > 0 ==> Occurs(s, j, ItemsBytes(items)) && end == j + |ItemsBytes(items)|
  {
    hide Occurs, ItemsBytes;
    var rest := if |items| == 0 then [RBRACKET] else ItemsBytes(items);
    OccursSplit(s, i, [LBRACKET], blank + rest);
    OccursSplit(s, i + 1, blank, rest);
    j := i + 1 + |blank|;
    if |items| == 0 {
      OccursAt(s, j, rest, 0);
    }
  }

  predicate EscapedItems(items: seq<Item>) { forall k :: 0 <= k < |items| ==> WellEscaped(items[k].value) }

  lemma {:induction false} ArrayComplete(s: seq<byte>, i: nat, blank: seq<byte>, items: seq<Item>, end: nat)
    requires LooseBlanks(blank) && forall k :: 0 <= k < |items| ==> LooseItem(items[k])
    requires Occurs(s, i, TextBytes(ArrText(blank, items))) && end == i + |TextBytes(ArrText(blank, items))|
    requires i < |s| && s[i] == LBRACKET
    ensures Reads(ParseValue(s, i), end, Array(ItemsMeaning(items)), EscapedItems(items))
    decreases items, 2
  {
    hide ParseValue, ParseItems, ParseMember, ParseMembers, ParseString, ParseNumber, TextBytes, ItemsBytes, Skip;
    hide LooseItem, EscapedItems, Loose, WellEscaped, Meaning, LooseBlanks, Occurs;
    ArrayAt(s, i);
    var j := ArrayParts(s, i, blank, items, end);
    if |items| == 0 {
      AfterBlanks(s, i + 1, blank, RBRACKET);
    } else {
      var k, v, e := FirstItem(s, j, items);
      SameStart(s, i + 1, blank, j, items[0].before, k);
      ItemsFromSkip(s, j);
      ItemsFromSkip(s, i + 1);
      ItemsComplete(s, j, items, end);
    }
  }

  /** Blanks after an opening bracket and before the first value are skipped alike from both ends. */
  lemma SameStart(s: seq<byte>, i: nat, a: seq<byte>, j: nat, b: seq<byte>, k: nat)
    requires Occurs(s, i, a) && LooseBlanks(a) && j == i + |a| && Occurs(s, j, b) && LooseBlanks(b)
    requires k == j + |b| && At(s, k) > 32
    ensures Skip(s, i) == k && Skip(s, j) == k
  {
    OccursSplit(s, i, a, b);
    SkipBlanks(s, i, a + b);
    SkipBlanks(s, j, b);
  }

  /** Where the parts of the first item stand: its value at k, what follows it at v, and its separator at e. */
  lemma FirstItem(s: seq<byte>, j: nat, items: seq<Item>) returns (k: nat, v: nat, e: nat)
    requires |items| > 0 && LooseItem(items[0]) && Occurs(s, j, ItemsBytes(items))
    ensures LooseBlanks(items[0].before) && LooseBlanks(items[0].after) && Loose(items[0].value)
    ensures !items[0].value.OpenText?
    ensures k == j + |items[0].before| && Occurs(s, j, items[0].before)
    ensures v == k + |TextBytes(items[0].value)| && Occurs(s, k, TextBytes(items[0].value))
    ensures At(s, k) > 32 && At(s, k) != RBRACKET && At(s, k) != RBRACE
    ensures e == v + |items[0].after| && Occurs(s, v, items[0].after)
    ensures |items| == 1 ==> At(s, e) == RBRACKET && e + 1 == j + |ItemsBytes(items)|
    ensures |items| > 1 ==> At(s, e) == COMMA && Occurs(s, e + 1, ItemsBytes(items[1..]))
    ensures |items| > 1 ==> e + 1 + |ItemsBytes(items[1..])| == j + |ItemsBytes(items)|
  {
    hide TextBytes, Occurs;
    var f := items[0];
    var rest := if |items| == 1 then [RBRACKET] else [COMMA] + ItemsBytes(items[1..]);
    OccursSplit(s, j, ItemBytes(f), rest);
    OccursSplit(s, j, f.before, TextBytes(f.value) + f.after);
    k := j + |f.before|;
    OccursSplit(s, k, TextBytes(f.value), f.after);
    FirstByte(f.value);
    OccursAt(s, k, TextBytes(f.value), 0);
    v := k + |TextBytes(f.value)|;
    e := v + |f.after|;
    OccursAt(s, e, rest, 0);
    if |items| > 1 {
      OccursSplit(s, e, [COMMA], ItemsBytes(items[1..]));
    }
  }

  lemma {:induction false} ItemsComplete(s: seq<byte>, i: nat, items: seq<Item>, end: nat)
    requires |items| > 0 && forall k :: 0 <= k < |items| ==> LooseItem(items[k])
    requires Occurs(s, i, ItemsBytes(items)) && end == i + |ItemsBytes(items)|
    ensures Reads(ParseItems(s, i), end, ItemsMeaning(items), EscapedItems(items))
    decreases items, 1
  {
    hide ParseValue, ParseItems, ParseMember, ParseMembers, ParseString, ParseNumber, TextBytes, ItemsBytes, Skip;
    hide Loose, WellEscaped, Meaning, Occurs, LooseBlanks, Stands;
    var k, v, e := FirstItem(s, i, items);
    SkipBlanks(s, i, items[0].before);
    AfterBlanks(s, v, items[0].after, if |items| == 1 then RBRACKET else COMMA);
    FollowedStands(s, k, items[0].value, v);
    LooseComplete(s, k, items[0].value, v);
    var item := Meaning(items[0].value);
    ItemsMeaningCons(items);
    if ParseValue(s, k).OutOfBounds? {
      ItemsUndefined(s, i);
    } else if |items| > 1 {
      ItemsComplete(s, e + 1, items[1..], end);
      ItemsMore(s, i, v, item);
    } else {
      ItemsLast(s, i, v, item);
    }
  }

  lemma ItemsUndefined(s: seq<byte>, i: nat)
    requires i <= |s| && ParseValue(s, Skip(s, i)).OutOfBounds?
    ensures ParseItems(s, i).OutOfBounds?
  {
    hide ParseValue, Skip, At;
  }

  lemma ItemsMeaningCons(items: seq<Item>)
    requires |items| > 0 && forall k :: 0 <= k < |items| ==> LooseItem(items[k])
    ensures LooseItem(items[0]) && (EscapedItems(items) ==> EscapedItems(items[1..]) && WellEscaped(items[0].value))
    ensures ItemsMeaning(items) == [Meaning(items[0].value)] + ItemsMeaning(items[1..])
    ensures |items| == 1 ==> ItemsMeaning(items) == [Meaning(items[0].value)]
  {
    hide WellEscaped, Loose, Meaning;
  }

  lemma ObjectParts(s: seq<byte>, i: nat, blank: seq<byte>, members: seq<MemberText>, end: nat) returns (j: nat)
    requires Occurs(s, i, TextBytes(ObjText(blank, members))) && end == i + |TextBytes(ObjText(blank, members))|
    ensures i + 1 <= j <= |s| && j == i + 1 + |blank| && Occurs(s, i + 1, blank)
    ensures |members| == 0 ==> At(s, j) == RBRACE && end == j + 1
    ensures |members| > 0 ==> Occurs(s, j, MembersBytes(members)) && end == j + |MembersBytes(members)|
  {
    hide Occurs, MembersBytes;
    var rest := if |members| == 0 then [RBRACE] else MembersBytes(members);
    OccursSplit(s, i, [LBRACE], blank + rest);
    OccursSplit(s, i + 1, blank, rest);
    j := i + 1 + |blank|;
    if |members| == 0 {
      OccursAt(s, j, rest, 0);
    }
  }

  predicate EscapedMembers(members: seq<MemberText>) {
    forall k :: 0 <= k < |members| ==> WellEscapedMember(members[k])
  }

  lemma {:induction false} ObjectComplete(s: seq<byte>, i: nat, blank: seq<byte>, members: seq<MemberText>, end: nat)
    requires LooseBlanks(blank) && forall k :: 0 <= k < |members| ==> LooseMember(members[k])
    requires Occurs(s, i, TextBytes(ObjText(blank, members))) && end == i + |TextBytes(ObjText(blank, members))|
    requires i < |s| && s[i] == LBRACE
    ensures Reads(ParseValue(s, i), end, Object(MembersMeaning(members)), EscapedMembers(members))
    decreases members, 3
  {
    hide ParseValue, ParseItems, ParseMember, ParseMembers, ParseString, ParseNumber;
    hide TextBytes, MembersBytes, NameBytes, StringBytes, Skip, LooseMember, EscapedMembers;
    ObjectAt(s, i);
    var j := ObjectParts(s, i, blank, members, end);
    if |members| == 0 {
      AfterBlanks(s, i + 1, blank, RBRACE);
    } else {
      MembersMeaningCons(members);
      var v, w, e := FirstMember(s, j, members);
      var k, n, c := NameParts(s, j, members[0]);
      SameStart(s, i + 1, blank, j, members[0].before, k);
      MembersFromSkip(s, j);
      MembersFromSkip(s, i + 1);
      MembersComplete(s, j, members, end);
    }
  }

  /** Where the parts of the first member stand: its value at v, what follows at w, its separator at e. */
  lemma FirstMember(s: seq<byte>, j: nat, members: seq<MemberText>) returns (v: nat, w: nat, e: nat)
    requires |members| > 0 && LooseMember(members[0]) && Occurs(s, j, MembersBytes(members))
    ensures LooseName(members[0]) && Loose(members[0].value) && !members[0].value.OpenText?
    ensures LooseBlanks(members[0].after)
    ensures v == j + |NameBytes(members[0])| && Occurs(s, j, NameBytes(members[0]))
    ensures w == v + |TextBytes(members[0].value)| && Occurs(s, v, TextBytes(members[0].value)) && At(s, v) > 32
    ensures e == w + |members[0].after| && Occurs(s, w, members[0].after)
    ensures |members| == 1 ==> At(s, e) == RBRACE && e + 1 == j + |MembersBytes(members)|
    ensures |members| > 1 ==> At(s, e) == COMMA && Occurs(s, e + 1, MembersBytes(members[1..]))
    ensures |members| > 1 ==> e + 1 + |MembersBytes(members[1..])| == j + |MembersBytes(members)|
  {
    hide TextBytes, NameBytes, Occurs;
    var m := members[0];
    var rest := if |members| == 1 then [RBRACE] else [COMMA] + MembersBytes(members[1..]);
    OccursSplit(s, j, MemberBytes(m), rest);
    OccursSplit(s, j, NameBytes(m), TextBytes(m.value) + m.after);
    v := j + |NameBytes(m)|;
    OccursSplit(s, v, TextBytes(m.value), m.after);
    FirstByte(m.value);
    OccursAt(s, v, TextBytes(m.value), 0);
    w := v + |TextBytes(m.value)|;
    e := w + |m.after|;
    OccursAt(s, e, rest, 0);
    if |members| > 1 {
      OccursSplit(s, e, [COMMA], MembersBytes(members[1..]));
    }
  }

  /** Where the name of a member stands: its string at k, what follows at n, and the colon at c. */
  lemma NameParts(s: seq<byte>, j: nat, m: MemberText) returns (k: nat, n: nat, c: nat)
    requires LooseName(m) && Occurs(s, j, NameBytes(m))
    ensures LooseBlanks(m.before) && LooseBlanks(m.afterName) && LooseBlanks(m.beforeValue) && LooseChars(m.name)
    ensures k == j + |m.before| && Occurs(s, j, m.before)
    ensures n == k + |StringBytes(m.name)| && Occurs(s, k, StringBytes(m.name)) && At(s, k) == QUOTE
    ensures c == n + |m.afterName| && Occurs(s, n, m.afterName) && c < |s| && At(s, c) == COLON
    ensures Occurs(s, c + 1, m.beforeValue) && c + 1 + |m.beforeValue| == j + |NameBytes(m)|
  {
    hide Occurs, CharsBytes;
    var rest := m.afterName + ([COLON] + m.beforeValue);
    OccursSplit(s, j, m.before, StringBytes(m.name) + rest);
    k := j + |m.before|;
    OccursSplit(s, k, StringBytes(m.name), rest);
    OccursAt(s, k, StringBytes(m.name), 0);
    n := k + |StringBytes(m.name)|;
    OccursSplit(s, n, m.afterName, [COLON] + m.beforeValue);
    c := n + |m.afterName|;
    OccursSplit(s, c, [COLON], m.beforeValue);
    OccursAt(s, c, [COLON], 0);
  }

  function MemberMeaning(m: MemberText): Member
    requires LooseMember(m)
  {
    Member(CharsMeaning(m.name), Meaning(m.value))
  }

  lemma {:induction false} MemberComplete(s: seq<byte>, i: nat, m: MemberText, v: nat, end: nat)
    requires LooseMember(m) && Occurs(s, i, NameBytes(m)) && v == i + |NameBytes(m)| && At(s, v) > 32
    requires Stands(s, v, m.value, end)
    ensures Reads(ParseMember(s, i), end, MemberMeaning(m), WellEscapedMember(m))
    decreases m, 1
  {
    hide ParseValue, ParseMember, ParseString, TextBytes, NameBytes, StringBytes, Skip, CharsMeaning, Meaning, Occurs;
    hide Stands, Loose, WellEscaped, LenientChars;
    var k, n, c := NameParts(s, i, m);
    SkipBlanks(s, i, m.before);
    StringComplete(s, k, m.name, n);
    if ParseString(s, k).OutOfBounds? {
      NameUndefined(s, i);
    } else {
      AfterBlanks(s, n, m.afterName, COLON);
      SkipBlanks(s, c + 1, m.beforeValue);
      NamedMember(s, i, n, CharsMeaning(m.name));
      LooseComplete(s, v, m.value, end);
    }
  }

  lemma NameUndefined(s: seq<byte>, i: nat)
    requires i <= |s| && ParseString(s, Skip(s, i)).OutOfBounds?
    ensures ParseMember(s, i).OutOfBounds?
  {
    hide ParseValue, ParseString, Skip, At;
  }

  lemma {:induction false} MembersComplete(s: seq<byte>, i: nat, members: seq<MemberText>, end: nat)
    requires |members| > 0 && forall k :: 0 <= k < |members| ==> LooseMember(members[k])
    requires Occurs(s, i, MembersBytes(members)) && end == i + |MembersBytes(members)|
    ensures Reads(ParseMembers(s, i), end, MembersMeaning(members), EscapedMembers(members))
    decreases members, 2
  {
    hide ParseValue, ParseMember, ParseMembers, TextBytes, MembersBytes, NameBytes, Skip, CharsMeaning, Meaning;
    hide Stands, Loose, WellEscapedMember, Occurs, MemberMeaning;
    MembersMeaningCons(members);
    var v, w, e := FirstMember(s, i, members);
    AfterBlanks(s, w, members[0].after, if |members| == 1 then RBRACE else COMMA);
    FollowedStands(s, v, members[0].value, w);
    MemberComplete(s, i, members[0], v, w);
    var member := MemberMeaning(members[0]);
    if ParseMember(s, i).OutOfBounds? {
      MembersUndefined(s, i);
    } else if |members| > 1 {
      MembersComplete(s, e + 1, members[1..], end);
      MembersMore(s, i, w, member);
    } else {
      MembersLast(s, i, w, member);
    }
  }

  lemma MembersUndefined(s: seq<byte>, i: nat)
    requires i <= |s| && ParseMember(s, i).OutOfBounds?
    ensures ParseMembers(s, i).OutOfBounds?
  {
    hide ParseMember, Skip, At;
  }

  lemma MembersMeaningCons(members: seq<MemberText>)
    requires |members| > 0 && forall k :: 0 <= k < |members| ==> LooseMember(members[k])
    ensures LooseMember(members[0])
    ensures EscapedMembers(members) ==> EscapedMembers(members[1..]) && WellEscapedMember(members[0])
    ensures MembersMeaning(members) == [MemberMeaning(members[0])] + MembersMeaning(members[1..])
    ensures |members| == 1 ==> MembersMeaning(members) == [MemberMeaning(members[0])]
  {
    hide WellEscapedMember, Loose, Meaning, CharsMeaning;
  }

  // ---------- whole texts ----------

  /** A text of the loose grammar with its value, read to its end. */
  lemma TextComplete(before: seq<byte>, t: Text, after: seq<byte>)
    requires LooseBlanks(before) && Loose(t) && LooseBlanks(after) && (t.OpenText? ==> after == [])
    ensures var s := before + (TextBytes(t) + after);
      && Reads(ParseText(s, true), |s|, Meaning(t), WellEscaped(t))
      && Reads(ParseText(s, false), |before| + |TextBytes(t)|, Meaning(t), WellEscaped(t))
  {
    hide ParseValue, TextBytes, Skip, Meaning, WellEscaped, Stands, Loose, Occurs;
    var s := before + (TextBytes(t) + after);
    var p, q := TextParts(s, before, t, after);
    SkipBlanks(s, 0, before);
    LooseComplete(s, p, t, q);
    SkipBlanks(s, q, after);
  }

  /** Sections 2 to 7 of RFC 8259: every JSON text is accepted whole and gives its meaning. */
  lemma GrammarComplete(before: seq<byte>, t: Text, after: seq<byte>)
    requires Blanks(before) && Valid(t) && Blanks(after)
    ensures var s := before + (TextBytes(t) + after);
      && ParseText(s, true) == Done(|s|, Meaning(t))
      && ParseText(s, false) == Done(|before| + |TextBytes(t)|, Meaning(t))
  {
    hide ParseText, TextBytes, Meaning;
    TextComplete(before, t, after);
  }

  lemma OccursWhole(s: seq<byte>)
    ensures Occurs(s, 0, s)
  {
  }

  lemma TextParts(s: seq<byte>, before: seq<byte>, t: Text, after: seq<byte>) returns (p: nat, q: nat)
    requires s == before + (TextBytes(t) + after)
    requires LooseBlanks(before) && Loose(t) && LooseBlanks(after) && (t.OpenText? ==> after == [])
    ensures p == |before| && Occurs(s, 0, before) && p < |s| && At(s, p) > 32
    ensures q == p + |TextBytes(t)| && Stands(s, p, t, q)
    ensures Occurs(s, q, after) && q + |after| == |s|
  {
    hide Occurs, TextBytes, Loose, Longest;
    OccursWhole(s);
    OccursSplit(s, 0, before, TextBytes(t) + after);
    p := |before|;
    OccursSplit(s, p, TextBytes(t), after);
    FirstByte(t);
    OccursAt(s, p, TextBytes(t), 0);
    q := p + |TextBytes(t)|;
    if after != [] { OccursAt(s, q, after, 0); }
    if !t.OpenText? { FollowedStands(s, p, t, q); }
  }
}
