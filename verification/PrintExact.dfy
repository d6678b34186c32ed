/**
 Exactly when printing and parsing gives a tree back whatever the fresh heap blocks held before:
 when every rendering fits the size given to chsnprintf.
 */
module PrintExact {
  import opened Bytes
  import opened Unicode
  import opened Json
  import opened Grammar
  import opened JsonParse
  import opened Completeness
  import opened JsonPrint

  /** A letter that is neither a digit of a number nor a hexadecimal digit. */
  const LETTER_G: byte := 0x67

  /** Bytes that were all that letter. */
  function StaleBytes(n: nat): (held: seq<byte>)
    ensures |held| == n && forall k :: 0 <= k < n ==> held[k] == LETTER_G
  {
    seq(n, _ => LETTER_G)
  }

  /** A block for a number that was full of that letter, with a zero at its end. */
  const STALE_NUMBER: seq<byte> := StaleBytes(NUMBER_BLOCK - 1) + [0]

  /** Blocks that were full of that letter. */
  function Stale(v: Value): (held: Held)
    ensures Recorded(held, v)
    decreases v
  {
    match v
    case Number(_) => Held(STALE_NUMBER, [], [])
    case String(s) => Held(StaleBytes(StringBlock(s)), [], [])
    case Array(items) => Held([], [], StaleAll(items))
    case Object(members) => Held([], [], StaleEach(members))
    case _ => NOTHING
  }

  function StaleAll(items: seq<Value>): (hs: seq<Held>)
    ensures |hs| == |items| && forall k :: 0 <= k < |items| ==> hs[k] == Stale(items[k]) && Recorded(hs[k], items[k])
    decreases items
  {
    if |items| == 0 then [] else [Stale(items[0])] + StaleAll(items[1..])
  }

  function StaleNamed(m: Member): (held: Held)
    ensures RecordedMember(held, m)
    decreases m
  {
    Stale(m.value).(name := StaleBytes(StringBlock(m.name)))
  }

  function StaleEach(members: seq<Member>): (hs: seq<Held>)
    ensures |hs| == |members|
    ensures forall k :: 0 <= k < |members| ==> hs[k] == StaleNamed(members[k]) && RecordedMember(hs[k], members[k])
    decreases members
  {
    if |members| == 0 then [] else [StaleNamed(members[0])] + StaleEach(members[1..])
  }

  // ---------- texts in such blocks ----------

  function StaleString(w: nat, s: seq<byte>): seq<byte> { PrintString(w, StaleBytes(StringBlock(s)), s) }

  function StaleText(w: nat, v: Value): seq<byte> { Print(w, Stale(v), v) }

  function StaleItems(w: nat, items: seq<Value>): seq<byte>
    requires |items| > 0
  {
    PrintItems(w, StaleAll(items), items)
  }

  function StaleMember(w: nat, m: Member): seq<byte> { StaleString(w, m.name) + ([COLON] + StaleText(w, m.value)) }

  function StaleMembers(w: nat, members: seq<Member>): seq<byte>
    requires |members| > 0
  {
    PrintMembers(w, StaleEach(members), members)
  }

  lemma StaleItemsStep(w: nat, items: seq<Value>)
    requires |items| > 0
    ensures StaleItems(w, items) ==
      StaleText(w, items[0]) + if |items| == 1 then [RBRACKET] else [COMMA] + StaleItems(w, items[1..])
  {
    hide Print;
    assert StaleAll(items)[1..] == StaleAll(items[1..]);
  }

  lemma StaleMembersStep(w: nat, members: seq<Member>)
    requires |members| > 0
    ensures StaleMembers(w, members) ==
      StaleMember(w, members[0]) + if |members| == 1 then [RBRACE] else [COMMA] + StaleMembers(w, members[1..])
  {
    hide Print, PrintString;
    assert StaleEach(members)[1..] == StaleEach(members[1..]);
    SameBlocks(w, members[0]);
  }

  /** What a block for the name held does not matter to the text of the value. */
  lemma SameBlocks(w: nat, m: Member)
    ensures PrintMember(w, StaleNamed(m), m) == StaleMember(w, m)
  {
  }

  lemma StaleStringBytes(w: nat, s: seq<byte>)
    requires NulFree(s)
    ensures StaleString(w, s) == QuotedChars(w, StaleBytes(StringBlock(s)), s)
  {
    StaleNulFree(w, StaleBytes(StringBlock(s)), 1, s);
  }

  lemma {:induction false} StaleNulFree(w: nat, held: seq<byte>, i: nat, s: seq<byte>)
    requires NulFree(s) && i + Room(s) <= |held| && NulFree(held)
    ensures NulFree(PrintChars(w, held, i, s))
    decreases s
  {
    hide PrintChar, CharRoom;
    if |s| > 0 {
      hide NulFree, Cells;
      var c, rest := PrintChar(w, held, i, s[0]), PrintChars(w, held, i + CharRoom(s[0]), s[1..]);
      NulFreeTail(s);
      CharNulFree(w, held, i, s[0]);
      StaleNulFree(w, held, i + CharRoom(s[0]), s[1..]);
      NulFreeAppend(c, rest);
    }
  }

  lemma NulFreeTail(s: seq<byte>)
    requires NulFree(s) && |s| > 0
    ensures s[0] != 0 && NulFree(s[1..])
  {
  }

  lemma NulFreeAppend(a: seq<byte>, b: seq<byte>)
    requires NulFree(a) && NulFree(b)
    ensures NulFree(a + b)
  {
  }

  lemma CharNulFree(w: nat, held: seq<byte>, i: nat, b: byte)
    requires b != 0 && i + CharRoom(b) <= |held| && NulFree(held)
    ensures NulFree(PrintChar(w, held, i, b))
  {
    if NeedsHex(b) { assert NulFree(Cells(held, i + 1)); }
  }

  // ---------- strings ----------

  /** The characters a parser sees where one byte was printed. */
  function DamagedChar(w: nat, b: byte): seq<StrChar> {
    if NeedsHex(b) && w == 0 then [Escape(LETTER_G)] + Letters(4)
    else if NeedsHex(b) && w < 5 then [Unit(HexText(b)[..w - 1] + StaleBytes(5)[w..])]
    else [CharOf(b)]
  }

  function DamagedChars(w: nat, s: seq<byte>): seq<StrChar> {
    if |s| == 0 then [] else DamagedChar(w, s[0]) + DamagedChars(w, s[1..])
  }

  /** What the damaged characters of one byte are read as. */
  function DamagedByte(w: nat, b: byte): seq<byte> {
    if NeedsHex(b) && w == 0 then [LETTER_G] + LetterBytes(4)
    else if NeedsHex(b) && w < 5 then (if w == 4 && b >= 16 then [1] else [])
    else [b]
  }

  function DamagedString(w: nat, s: seq<byte>): seq<byte> {
    if |s| == 0 then [] else DamagedByte(w, s[0]) + DamagedString(w, s[1..])
  }

  lemma {:induction false} CharsBytesAppend(a: seq<StrChar>, b: seq<StrChar>)
    ensures CharsBytes(a + b) == CharsBytes(a) + CharsBytes(b)
  {
    hide CharBytes;
    if |a| == 0 {
      assert a + b == b;
    } else {
      CharsBytesAppend(a[1..], b);
      assert (a + b)[0] == a[0] && (a + b)[1..] == a[1..] + b;
      ConcatAssociates(CharBytes(a[0]), CharsBytes(a[1..]), CharsBytes(b));
    }
  }

  lemma ConcatAssociates(x: seq<byte>, y: seq<byte>, z: seq<byte>)
    ensures x + (y + z) == (x + y) + z
  {
  }

  /** The letter n times, as raw characters. */
  function Letters(n: nat): seq<StrChar> {
    if n == 0 then [] else [Raw(LETTER_G)] + Letters(n - 1)
  }

  function LetterBytes(n: nat): seq<byte> {
    if n == 0 then [] else [LETTER_G] + LetterBytes(n - 1)
  }

  lemma {:induction false} LettersRead(n: nat, rest: seq<StrChar>)
    requires LenientChars(rest)
    ensures CharsBytes(Letters(n)) == LetterBytes(n)
    ensures LenientChars(Letters(n) + rest) && CharsMeaning(Letters(n) + rest) == LetterBytes(n) + CharsMeaning(rest)
  {
    hide CharsMeaning, CharsBytes;
    if n == 0 {
      assert Letters(n) + rest == rest && LetterBytes(n) + CharsMeaning(rest) == CharsMeaning(rest);
      NoLetters();
    } else {
      var tail := Letters(n - 1) + rest;
      LettersRead(n - 1, rest);
      OneLetter(tail);
      OneLetterBytes(Letters(n - 1));
      assert Letters(n) + rest == [Raw(LETTER_G)] + tail;
    }
  }

  lemma NoLetters()
    ensures CharsBytes([]) == []
  {
  }

  lemma OneLetter(tail: seq<StrChar>)
    requires LenientChars(tail)
    ensures LenientChars([Raw(LETTER_G)] + tail)
    ensures CharsMeaning([Raw(LETTER_G)] + tail) == [LETTER_G] + CharsMeaning(tail)
  {
    assert ([Raw(LETTER_G)] + tail)[1..] == tail;
  }

  lemma OneLetterBytes(tail: seq<StrChar>)
    ensures CharsBytes([Raw(LETTER_G)] + tail) == [LETTER_G] + CharsBytes(tail)
  {
    assert ([Raw(LETTER_G)] + tail)[1..] == tail;
  }

  lemma DamagedCharBytes(w: nat, n: nat, i: nat, b: byte)
    requires i + CharRoom(b) <= n
    ensures CharsBytes(DamagedChar(w, b)) == PrintChar(w, StaleBytes(n), i, b)
  {
    hide HexText;
    var cs := DamagedChar(w, b);
    if NeedsHex(b) { assert Cells(StaleBytes(n), i + 1) == StaleBytes(5); }
    if NeedsHex(b) && w == 0 {
      LettersRead(4, []);
      assert cs[1..] == Letters(4);
      FiveLetters();
      assert CharsBytes(cs) == CharBytes(cs[0]) + LetterBytes(4);
    } else {
      assert cs[1..] == [] && CharsBytes(cs[1..]) == [];
      assert CharsBytes(cs) == CharBytes(cs[0]);
      OneDamagedChar(w, n, i, b);
    }
  }

  lemma FiveLetters()
    ensures StaleBytes(5) == [LETTER_G] + LetterBytes(4)
  {
    assert LetterBytes(4) == [LETTER_G] + LetterBytes(3);
    assert LetterBytes(3) == [LETTER_G] + LetterBytes(2);
  }

  lemma OneDamagedChar(w: nat, n: nat, i: nat, b: byte)
    requires NeedsHex(b) ==> w != 0 && Cells(StaleBytes(n), i + 1) == StaleBytes(5)
    ensures CharBytes(DamagedChar(w, b)[0]) == PrintChar(w, StaleBytes(n), i, b)
  {
    hide UpperHexDigit;
  }

  lemma {:induction false} DamagedCharsBytes(w: nat, n: nat, i: nat, s: seq<byte>)
    requires i + Room(s) <= n
    ensures CharsBytes(DamagedChars(w, s)) == PrintChars(w, StaleBytes(n), i, s)
    decreases s
  {
    hide DamagedChar, PrintChar, StaleBytes, CharRoom, CharBytes;
    if |s| > 0 {
      DamagedCharBytes(w, n, i, s[0]);
      DamagedCharsBytes(w, n, i + CharRoom(s[0]), s[1..]);
      CharsBytesAppend(DamagedChar(w, s[0]), DamagedChars(w, s[1..]));
    }
  }

  lemma ClippedHexValue(w: nat, b: byte)
    requires 1 <= w <= 4 && b < 32
    ensures HexValue(HexText(b)[..w - 1] + StaleBytes(5)[w..]) == if w == 4 then b / 16 else 0
  {
    var h := HexText(b)[..w - 1] + StaleBytes(5)[w..];
    assert HexValue([]) == 0;
    var h1, h2, h3 := h[..1], h[..2], h[..3];
    assert h3[..2] == h2 && h2[..1] == h1 && h1[..0] == [];
    assert HexValue(h1) == 0;
    assert HexValue(h2) == 0;
    assert HexValue(h3) == if w == 4 then b / 16 else 0;
  }

  lemma {:induction false} DamagedCharsMeaning(w: nat, s: seq<byte>)
    requires NulFree(s)
    ensures LenientChars(DamagedChars(w, s)) && CharsMeaning(DamagedChars(w, s)) == DamagedString(w, s)
  {
    if |s| > 0 {
      hide DamagedChar, DamagedByte, CharsMeaning;
      DamagedCharsMeaning(w, s[1..]);
      DamagedCharMeaning(w, s[0], DamagedChars(w, s[1..]));
    }
  }

  lemma DamagedCharMeaning(w: nat, b: byte, rest: seq<StrChar>)
    requires b != 0 && LenientChars(rest)
    ensures LenientChars(DamagedChar(w, b) + rest)
    ensures CharsMeaning(DamagedChar(w, b) + rest) == DamagedByte(w, b) + CharsMeaning(rest)
  {
    hide CharsMeaning, HexValue;
    if NeedsHex(b) && w == 0 {
      LettersRead(4, rest);
      assert DamagedChar(w, b) + rest == [Escape(LETTER_G)] + (Letters(4) + rest);
      EscapedLetter(Letters(4) + rest);
    } else if NeedsHex(b) && w < 5 {
      ClippedHexValue(w, b);
      SingleUnitMeaning(HexText(b)[..w - 1] + StaleBytes(5)[w..], rest);
    } else {
      IntactChar(b, rest);
    }
  }

  lemma EscapedLetter(rest: seq<StrChar>)
    requires LenientChars(rest)
    ensures LenientChars([Escape(LETTER_G)] + rest)
    ensures CharsMeaning([Escape(LETTER_G)] + rest) == [LETTER_G] + CharsMeaning(rest)
  {
    assert ([Escape(LETTER_G)] + rest)[1..] == rest;
  }

  lemma IntactChar(b: byte, rest: seq<StrChar>)
    requires b != 0 && LenientChars(rest)
    ensures LenientChars([CharOf(b)] + rest) && CharsMeaning([CharOf(b)] + rest) == [b] + CharsMeaning(rest)
  {
    hide HexText, HexValue;
    CharRoundTrip(b);
    assert ([CharOf(b)] + rest)[1..] == rest;
  }

  lemma {:induction false} DamagedIsShorter(w: nat, s: seq<byte>)
    requires w > 0
    ensures |DamagedString(w, s)| <= |s|
  {
    if |s| > 0 { DamagedIsShorter(w, s[1..]); }
  }

  /** A string with a control character is not read back when its rendering does not fit. */
  lemma {:induction false} DamagedDiffers(w: nat, s: seq<byte>)
    requires !StringFits(w, s)
    ensures DamagedString(w, s) != s
  {
    var b, rest := s[0], s[1..];
    var out := DamagedString(w, s);
    if !NeedsHex(b) {
      assert !StringFits(w, rest);
      DamagedDiffers(w, rest);
      assert out == [b] + DamagedString(w, rest);
      assert out[1..] == DamagedString(w, rest);
    } else if DamagedByte(w, b) == [] {
      DamagedIsShorter(w, rest);
    } else {
      assert out[0] == DamagedByte(w, b)[0];
    }
  }

  lemma StringAsDamaged(w: nat, s: seq<byte>, i: nat, name: seq<byte>, end: nat)
    requires NulFree(name) && Occurs(s, i, StaleString(w, name)) && end == i + |StaleString(w, name)|
    ensures ParseString(s, i) == Done(end, DamagedString(w, name))
    ensures StringFits(w, name) ==> DamagedString(w, name) == name
    ensures !StringFits(w, name) ==> DamagedString(w, name) != name
  {
    hide ParseString, DamagedString, CharsMeaning, StaleString;
    StaleStringBytes(w, name);
    DamagedCharsBytes(w, StringBlock(name), 1, name);
    DamagedCharsMeaning(w, name);
    StringComplete(s, i, DamagedChars(w, name), end);
    if StringFits(w, name) {
      FittingIsIntact(w, name);
    } else {
      DamagedDiffers(w, name);
    }
  }

  lemma {:induction false} FittingIsIntact(w: nat, s: seq<byte>)
    requires StringFits(w, s)
    ensures DamagedString(w, s) == s
  {
    if |s| > 0 { FittingIsIntact(w, s[1..]); }
  }

  // ---------- numbers ----------

  /** A number that does not fit is followed by what the block held. */
  lemma LongNumber(w: nat, s: seq<byte>, i: nat, n: int)
    requires |DecimalText(n)| >= w && INT_MIN <= n <= INT_MAX && Occurs(s, i, PrintNumber(w, STALE_NUMBER, n))
    ensures var p := ParseValue(s, i); p.Done? ==> At(s, p.next) == LETTER_G
  {
    hide ParseValue, ParseNumber, DecimalText, NumberBytes, NumberMeaning, UpToNul, Behind, Occurs, ClippedText;
    hide ValidNumber;
    var r, behind := DecimalText(n)[..w], UpToNul(Behind(STALE_NUMBER, w));
    IntLength(n);
    LetterBehind(w);
    OccursSplit(s, i, r, behind);
    OccursAt(s, i + w, behind, 0);
    if w == 0 {
      LetterIsNoValue(s, i);
    } else if n < 0 && w == 1 {
      OccursAt(s, i, r, 0);
      FirstOfDecimal(n);
      NumberAt(s, i);
      LoneMinus(s, i);
    } else {
      ClippedNumber(w, n);
      NotContinued(s, i, ClippedText(w, n));
      NumberComplete(s, i, ClippedText(w, n));
      NumberAt(s, i);
    }
  }

  lemma LetterBehind(w: nat)
    requires w < NUMBER_BLOCK - 1
    ensures |UpToNul(Behind(STALE_NUMBER, w))| > 0 && UpToNul(Behind(STALE_NUMBER, w))[0] == LETTER_G
  {
    assert Behind(STALE_NUMBER, w)[0] == LETTER_G;
  }

  lemma FirstOfDecimal(n: int)
    ensures |DecimalText(n)| > 0 && (n < 0 ==> DecimalText(n)[0] == MINUS)
  {
  }

  lemma LetterIsNoValue(s: seq<byte>, i: nat)
    requires i < |s| && s[i] == LETTER_G
    ensures ParseValue(s, i) == Fail(i)
  {
    hide ParseItems, ParseMembers, ParseString, ParseNumber;
    NotALiteral(s, i);
  }

  lemma LoneMinus(s: seq<byte>, i: nat)
    requires i + 1 < |s| && s[i] == MINUS && s[i + 1] == LETTER_G
    ensures ParseNumber(s, i).next == i + 1
  {
  }

  function ClippedText(w: nat, n: int): NumberText
    requires 1 <= w <= |DecimalText(n)| && (n < 0 ==> w >= 2)
  {
    NumberText(n < 0, if n < 0 then DecimalText(n)[1..w] else DecimalText(n)[..w], [], NoExponent)
  }

  lemma ClippedNumber(w: nat, n: int)
    requires 1 <= w <= |DecimalText(n)| && (n < 0 ==> w >= 2)
    ensures ValidNumber(ClippedText(w, n)) && NumberBytes(ClippedText(w, n)) == DecimalText(n)[..w]
  {
    var t := ClippedText(w, n);
    DigitsRoundTrip(if n < 0 then -n else n);
    assert FractionBytes(t.fraction) + ExponentBytes(t.exponent) == [];
    assert t.integer + [] == t.integer;
    if n < 0 {
      assert DecimalText(n)[..w] == [MINUS] + DecimalText(n)[1..w];
    }
  }

  // ---------- trees ----------

  /** The text of a tree with a rendering that does not fit is not read as that tree. */
  ghost predicate Misread(p: Parsed<Value>, s: seq<byte>, v: Value)
    requires p.Done? ==> p.next <= |s|
  {
    p.Done? ==> p.value != v || At(s, p.next) == LETTER_G
  }

  lemma FirstPrinted(w: nat, v: Value)
    ensures |StaleText(w, v)| > 0
    ensures var b := StaleText(w, v)[0]; b > 32 && b != RBRACKET && b != RBRACE
  {
    hide PrintItems, PrintMembers, PrintChars;
    match v
    case Number(r) => FirstOfDecimal(r.Floor);
    case _ =>
  }

  /** The text of a value in stale blocks, by its kind. */
  lemma StaleParts(w: nat, v: Value)
    ensures match v
      case Number(r) => StaleText(w, v) == PrintNumber(w, STALE_NUMBER, r.Floor)
      case String(text) => StaleText(w, v) == StaleString(w, text)
      case Array(items) => StaleText(w, v) == [LBRACKET] + if |items| == 0 then [RBRACKET] else StaleItems(w, items)
      case Object(members) =>
        StaleText(w, v) == [LBRACE] + if |members| == 0 then [RBRACE] else StaleMembers(w, members)
      case _ => true
  {
    hide PrintItems, PrintMembers, PrintString, PrintNumber, StaleAll, StaleEach;
  }

  lemma {:induction false} DoesNotFit(w: nat, v: Value, s: seq<byte>, i: nat, end: nat)
    requires Printable(v) && !Fits(w, v)
    requires Occurs(s, i, StaleText(w, v)) && end == i + |StaleText(w, v)|
    ensures Misread(ParseValue(s, i), s, v)
    decreases v, 0
  {
    hide ParseValue, ParseString, StaleText, StaleItems, StaleMembers, StaleString, DecimalText, PrintNumber, Occurs;
    hide Skip;
    StaleParts(w, v);
    FirstPrinted(w, v);
    OccursAt(s, i, StaleText(w, v), 0);
    match v
    case Number(r) =>
      LongNumber(w, s, i, r.Floor);
    case String(text) =>
      StringDoesNotFit(w, text, s, i, end);
    case Array(items) =>
      OccursSplit(s, i, [LBRACKET], StaleItems(w, items));
      OccursAt(s, i, [LBRACKET], 0);
      ItemsDoNotFit(w, items, s, i + 1, end);
      ArrayAt(s, i);
    case Object(members) =>
      OccursSplit(s, i, [LBRACE], StaleMembers(w, members));
      OccursAt(s, i, [LBRACE], 0);
      MembersDoNotFit(w, members, s, i + 1, end);
      ObjectAt(s, i);
  }

  lemma StringDoesNotFit(w: nat, text: seq<byte>, s: seq<byte>, i: nat, end: nat)
    requires NulFree(text) && !StringFits(w, text)
    requires Occurs(s, i, StaleString(w, text)) && end == i + |StaleString(w, text)|
    ensures Misread(ParseValue(s, i), s, String(text))
  {
    hide ParseValue, ParseString, StaleString, DamagedString;
    StringAsDamaged(w, s, i, text, end);
    FirstOfString(w, text);
    OccursAt(s, i, StaleString(w, text), 0);
    StringAt(s, i);
  }

  lemma FirstOfString(w: nat, text: seq<byte>)
    ensures |StaleString(w, text)| > 0 && StaleString(w, text)[0] == QUOTE
  {
  }

  /** Where the first printed item ends, and what stands behind it. */
  lemma FirstPrintedItem(w: nat, items: seq<Value>, s: seq<byte>, i: nat) returns (e: nat)
    requires |items| > 0 && Occurs(s, i, StaleItems(w, items))
    ensures e == i + |StaleText(w, items[0])| && Occurs(s, i, StaleText(w, items[0])) && e < |s|
    ensures At(s, i) > 32 && Skip(s, i) == i && Skip(s, e) == e
    ensures |items| == 1 ==> At(s, e) == RBRACKET
    ensures |items| > 1 ==> At(s, e) == COMMA && Occurs(s, e + 1, StaleItems(w, items[1..]))
  {
    hide StaleItems, StaleText, Occurs;
    StaleItemsStep(w, items);
    var rest := if |items| == 1 then [RBRACKET] else [COMMA] + StaleItems(w, items[1..]);
    OccursSplit(s, i, StaleText(w, items[0]), rest);
    e := i + |StaleText(w, items[0])|;
    FirstPrinted(w, items[0]);
    OccursAt(s, i, StaleText(w, items[0]), 0);
    OccursAt(s, e, rest, 0);
    if |items| > 1 {
      OccursSplit(s, e, [COMMA], StaleItems(w, items[1..]));
    }
  }

  lemma {:induction false} ItemsDoNotFit(w: nat, items: seq<Value>, s: seq<byte>, i: nat, end: nat)
    requires |items| > 0 && forall k :: 0 <= k < |items| ==> Printable(items[k])
    requires exists k :: 0 <= k < |items| && !Fits(w, items[k])
    requires Occurs(s, i, StaleItems(w, items)) && end == i + |StaleItems(w, items)|
    ensures var p := ParseItems(s, i); p.Done? ==> p.value != items
    ensures i < |s| && At(s, Skip(s, i)) != RBRACKET
    decreases items, 1
  {
    hide ParseItems, ItemsOf, ParseValue, Print, PrintItems, Stale, StaleAll, StaleItems, DecimalText, Fits;
    hide Printable, Occurs, Skip;
    var e := FirstPrintedItem(w, items, s, i);
    var p := ParseValue(s, i);
    FirstPrinted(w, items[0]);
    OccursAt(s, i, StaleText(w, items[0]), 0);
    if !Fits(w, items[0]) {
      DoesNotFit(w, items[0], s, i, e);
      StopsAtLetter(s, i);
    } else {
      RoundTripAt(w, Stale(items[0]), items[0], s, i, e);
      var k :| 0 <= k < |items| && !Fits(w, items[k]);
      assert items[1..][k - 1] == items[k];
      ItemsDoNotFit(w, items[1..], s, e + 1, e + 1 + |StaleItems(w, items[1..])|);
      ItemsMore(s, i, e, items[0]);
    }
  }

  /** After a value that ends at the letter the list is malformed; otherwise its head is the value read. */
  lemma StopsAtLetter(s: seq<byte>, i: nat)
    requires i <= |s| && Skip(s, i) == i
    ensures var p, q := ParseValue(s, i), ParseItems(s, i);
      q.Done? ==> p.Done? && At(s, p.next) != LETTER_G && q.value[0] == p.value
  {
    hide ParseValue;
    var p := ParseValue(s, i);
    if p.Done? && At(s, p.next) == LETTER_G {
      assert Skip(s, p.next) == p.next;
    }
  }

  /** Where the first printed member ends, and what stands behind it. */
  lemma FirstPrintedMember(w: nat, members: seq<Member>, s: seq<byte>, i: nat) returns (c: nat, e: nat)
    requires |members| > 0 && Occurs(s, i, StaleMembers(w, members))
    ensures c == i + |StaleString(w, members[0].name)| && Occurs(s, i, StaleString(w, members[0].name))
    ensures c < |s| && At(s, c) == COLON && Skip(s, c) == c && Skip(s, c + 1) == c + 1
    ensures Occurs(s, c + 1, StaleText(w, members[0].value)) && e == c + 1 + |StaleText(w, members[0].value)|
    ensures e < |s| && At(s, i) > 32 && Skip(s, i) == i && Skip(s, e) == e
    ensures |members| == 1 ==> At(s, e) == RBRACE
    ensures |members| > 1 ==> At(s, e) == COMMA && Occurs(s, e + 1, StaleMembers(w, members[1..]))
  {
    hide StaleMembers, StaleText, StaleString, Occurs;
    var m := members[0];
    StaleMembersStep(w, members);
    var rest := if |members| == 1 then [RBRACE] else [COMMA] + StaleMembers(w, members[1..]);
    OccursSplit(s, i, StaleMember(w, m), rest);
    OccursSplit(s, i, StaleString(w, m.name), [COLON] + StaleText(w, m.value));
    c := i + |StaleString(w, m.name)|;
    OccursSplit(s, c, [COLON], StaleText(w, m.value));
    OccursAt(s, c, [COLON], 0);
    FirstPrinted(w, m.value);
    OccursAt(s, c + 1, StaleText(w, m.value), 0);
    e := c + 1 + |StaleText(w, m.value)|;
    FirstOfString(w, m.name);
    OccursAt(s, i, StaleString(w, m.name), 0);
    OccursAt(s, e, rest, 0);
    if |members| > 1 {
      OccursSplit(s, e, [COMMA], StaleMembers(w, members[1..]));
    }
  }

  lemma {:induction false} MemberDoesNotFit(w: nat, m: Member, s: seq<byte>, i: nat, c: nat, e: nat)
    requires PrintableMember(m) && !MemberFits(w, m)
    requires i < |s| && Skip(s, i) == i && Occurs(s, i, StaleString(w, m.name))
    requires c == i + |StaleString(w, m.name)| && c < |s| && At(s, c) == COLON
    requires Skip(s, c) == c && Skip(s, c + 1) == c + 1
    requires Occurs(s, c + 1, StaleText(w, m.value)) && e == c + 1 + |StaleText(w, m.value)|
    ensures var p := ParseMember(s, i); p.Done? ==> p.value != m || At(s, p.next) == LETTER_G
    decreases m, 1
  {
    hide ParseValue, ParseString, ParseMember, Print, Stale, StaleString, Fits, Printable, Occurs, Skip, DamagedString;
    StringAsDamaged(w, s, i, m.name, c);
    NamedMember(s, i, c, DamagedString(w, m.name));
    if StringFits(w, m.name) {
      DoesNotFit(w, m.value, s, c + 1, e);
    }
  }

  lemma {:induction false} MembersDoNotFit(w: nat, members: seq<Member>, s: seq<byte>, i: nat, end: nat)
    requires |members| > 0 && forall k :: 0 <= k < |members| ==> PrintableMember(members[k])
    requires exists k :: 0 <= k < |members| && !MemberFits(w, members[k])
    requires Occurs(s, i, StaleMembers(w, members)) && end == i + |StaleMembers(w, members)|
    ensures var p := ParseMembers(s, i); p.Done? ==> p.value != members
    ensures i < |s| && At(s, Skip(s, i)) != RBRACE
    decreases members, 2
  {
    hide ParseValue, ParseMember, ParseMembers, Print, Stale, StaleEach, StaleString, StaleMembers, MemberFits;
    hide PrintableMember, Occurs, Skip;
    var c, e := FirstPrintedMember(w, members, s, i);
    var m := members[0];
    FirstOfString(w, m.name);
    OccursAt(s, i, StaleString(w, m.name), 0);
    if !MemberFits(w, m) {
      MemberDoesNotFit(w, m, s, i, c, e);
      MembersStopAtLetter(s, i);
    } else {
      FittingMember(w, m, s, i, c, e);
      var k :| 0 <= k < |members| && !MemberFits(w, members[k]);
      assert members[1..][k - 1] == members[k];
      MembersDoNotFit(w, members[1..], s, e + 1, e + 1 + |StaleMembers(w, members[1..])|);
      MembersMore(s, i, e, m);
    }
  }

  lemma FittingMember(w: nat, m: Member, s: seq<byte>, i: nat, c: nat, e: nat)
    requires PrintableMember(m) && MemberFits(w, m)
    requires i < |s| && Skip(s, i) == i && Occurs(s, i, StaleString(w, m.name))
    requires c == i + |StaleString(w, m.name)| && c < |s| && At(s, c) == COLON
    requires Skip(s, c) == c && Skip(s, c + 1) == c + 1
    requires Occurs(s, c + 1, StaleText(w, m.value)) && e == c + 1 + |StaleText(w, m.value)| && Follows(s, e)
    ensures ParseMember(s, i) == Done(e, m)
  {
    hide ParseValue, ParseString, ParseMember, Print, Stale, StaleString, Fits, Printable, Occurs, Skip, DamagedString;
    StringAsDamaged(w, s, i, m.name, c);
    NamedMember(s, i, c, DamagedString(w, m.name));
    RoundTripAt(w, Stale(m.value), m.value, s, c + 1, e);
  }

  lemma MembersStopAtLetter(s: seq<byte>, i: nat)
    requires i <= |s|
    ensures var p, q := ParseMember(s, i), ParseMembers(s, i);
      q.Done? ==> p.Done? && At(s, p.next) != LETTER_G && q.value[0] == p.value
  {
    hide ParseMember;
    var p := ParseMember(s, i);
    if p.Done? && At(s, p.next) == LETTER_G {
      assert Skip(s, p.next) == p.next;
    }
  }

  ghost predicate ReadsBack(w: nat, held: Held, v: Value) {
    var p := ParseText(Print(w, held, v), true);
    p.Done? && p.value == v
  }

  /** The contents of blocks that a printer of the value may meet without reading behind the end of one. */
  predicate Harmless(w: nat, held: Held, v: Value) {
    Recorded(held, v) && Ends(w, held, v) && InnerEnd(w, held, v)
  }

  /**
   Printing and parsing gives a tree back, whatever the fresh blocks held, if and only if every
   number is rendered in fewer than W characters and no control character meets a W below five.
   */
  lemma RoundTripExactlyWhenFits(w: nat, v: Value)
    requires Printable(v)
    ensures (forall held: Held | Harmless(w, held, v) :: ReadsBack(w, held, v)) <==> Fits(w, v)
  {
    hide Print, ParseText, Fits, Ends, InnerEnd;
    if Fits(w, v) {
      forall held: Held | Harmless(w, held, v)
        ensures ReadsBack(w, held, v)
      {
        RoundTrip(w, held, v);
      }
    } else {
      StaleIsMisread(w, v);
      StaleEnds(w, v);
      assert Harmless(w, Stale(v), v) && !ReadsBack(w, Stale(v), v);
    }
  }

  /** The zero at the end of a number's block is enough for its text to end. */
  lemma {:induction false} StaleEnds(w: nat, v: Value)
    requires Printable(v)
    ensures Ends(w, Stale(v), v) && InnerEnd(w, Stale(v), v)
    decreases v
  {
    hide Print, PrintNumber;
    match v
    case Number(r) => StaleNumberEnds(w, r.Floor);
    case Array(items) =>
      forall k | 0 <= k < |items|
        ensures Ends(w, Kid(Stale(v).kids, k), items[k]) && InnerEnd(w, Kid(Stale(v).kids, k), items[k])
      {
        StaleEnds(w, items[k]);
      }
    case Object(members) =>
      forall k | 0 <= k < |members|
        ensures MemberEnds(w, Kid(Stale(v).kids, k), members[k])
      {
        assert PrintableMember(members[k]);
        StaleEnds(w, members[k].value);
        NameDoesNotMatter(w, members[k]);
      }
    case _ =>
  }

  lemma StaleNumberEnds(w: nat, n: int)
    requires INT_MIN <= n <= INT_MAX
    ensures |PrintNumber(w, STALE_NUMBER, n)| < NUMBER_BLOCK
  {
    hide DecimalText;
    IntLength(n);
    if |DecimalText(n)| >= w {
      var b := Behind(STALE_NUMBER, w);
      assert b[|b| - 1] == 0;
    }
  }

  lemma NameDoesNotMatter(w: nat, m: Member)
    requires MemberEnds(w, Stale(m.value), m)
    ensures MemberEnds(w, StaleNamed(m), m)
  {
  }

  lemma StaleIsMisread(w: nat, v: Value)
    requires Printable(v) && !Fits(w, v)
    ensures !ReadsBack(w, Stale(v), v)
  {
    hide Print, ParseValue;
    var s := StaleText(w, v);
    assert Occurs(s, 0, s);
    FirstPrinted(w, v);
    DoesNotFit(w, v, s, 0, |s|);
    var p := ParseValue(s, 0);
    assert Skip(s, 0) == 0;
    if p.Done? && At(s, p.next) == LETTER_G {
      assert Skip(s, p.next) == p.next;
    }
  }

  // ---------- reading behind a block ----------

  /** A block for a number that was full of a letter, with no zero in it. */
  const FULL: Held := Held(StaleBytes(NUMBER_BLOCK), [], [])

  /** In such a block the text of a number that does not fit has no end. */
  lemma FullDoesNotEnd(w: nat, v: Value)
    requires Printable(v) && !NumberFits(w, v)
    ensures Recorded(FULL, v) && !Ends(w, FULL, v)
  {
    hide DecimalText;
    IntLength(v.number.Floor);
    assert NulFree(Behind(FULL.value, w));
  }

  /** Contents of blocks for which the printer reads behind one, where a number inside the value does not fit. */
  lemma {:induction false} OverRead(w: nat, v: Value) returns (held: Held)
    requires Printable(v) && !InnerNumbersFit(w, v)
    ensures Recorded(held, v) && !InnerEnd(w, held, v)
    decreases v
  {
    hide Ends, NumberFits, Stale;
    if v.Array? {
      var k :| 0 <= k < |v.items| && !(NumberFits(w, v.items[k]) && InnerNumbersFit(w, v.items[k]));
      var kid;
      if !NumberFits(w, v.items[k]) {
        FullDoesNotEnd(w, v.items[k]);
        kid := FULL;
      } else {
        kid := OverRead(w, v.items[k]);
      }
      held := Held([], [], StaleAll(v.items)[k := kid]);
      assert Kid(held.kids, k) == kid;
    } else {
      var k :| 0 <= k < |v.members| && !MemberNumbersFit(w, v.members[k]);
      var m := v.members[k];
      assert PrintableMember(m);
      var kid;
      if !NumberFits(w, m.value) {
        FullDoesNotEnd(w, m.value);
        kid := FULL;
      } else {
        kid := OverRead(w, m.value);
      }
      SameButForName(w, kid, StaleBytes(StringBlock(m.name)), m.value);
      kid := kid.(name := StaleBytes(StringBlock(m.name)));
      held := Held([], [], StaleEach(v.members)[k := kid]);
      assert Kid(held.kids, k) == kid && !MemberEnds(w, kid, m) && RecordedMember(kid, m);
    }
  }

  lemma SameButForName(w: nat, held: Held, name: seq<byte>, v: Value)
    ensures var h := held.(name := name);
      && (Recorded(h, v) <==> Recorded(held, v))
      && (Ends(w, h, v) <==> Ends(w, held, v)) && (InnerEnd(w, h, v) <==> InnerEnd(w, held, v))
  {
  }

  /**
   The printer reads inside its blocks, whatever they held, if and only if every number that is an item or the
   value of a member is rendered in fewer than W characters.
   */
  lemma ReadsInsideExactlyWhenNumbersFit(w: nat, v: Value)
    requires Printable(v)
    ensures (forall held: Held | Recorded(held, v) :: InnerEnd(w, held, v)) <==> InnerNumbersFit(w, v)
  {
    hide Recorded, InnerEnd, InnerNumbersFit;
    if InnerNumbersFit(w, v) {
      forall held: Held | Recorded(held, v)
        ensures InnerEnd(w, held, v)
      {
        FittingNumbersEnd(w, held, v);
      }
    } else {
      var held := OverRead(w, v);
    }
  }

  /** With pointers of four bytes the printer may read behind a block for [40000]. */
  lemma OneItemIsOverRead()
    ensures var v, held := Array([Number(40000.0)]), Held([], [], [FULL]);
      Printable(v) && Recorded(held, v) && !InnerEnd(4, held, v)
  {
    var n := Number(40000.0);
    FiveDigits();
    FullDoesNotEnd(4, n);
    assert Kid([FULL], 0) == FULL;
  }

  lemma FiveDigits()
    ensures DecimalText(40000) == [0x34, ZERO, ZERO, ZERO, ZERO]
  {
    assert DigitsText(4) == [0x34];
    assert DigitsText(40) == [0x34, ZERO];
    assert DigitsText(400) == [0x34, ZERO, ZERO];
    assert DigitsText(4000) == [0x34, ZERO, ZERO, ZERO];
  }
}
