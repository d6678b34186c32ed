/**
 The unformatted printer of cJSON.c as functions on abstract trees, and the round trip through it.

 Numbers and control characters are rendered by chsnprintf with the size of a pointer, W, as its
 buffer size: it stores at most W characters of the rendering, and a terminator only if there is
 room left. What stands in the buffer behind them is whatever the heap block held before, so the text
 is a function of that as well.
 */
module JsonPrint {
  import opened Bytes
  import opened Unicode
  import opened Json
  import opened Grammar
  import opened JsonParse
  import opened Completeness

  const INT_MAX: int := 0x7FFF_FFFF
  const INT_MIN: int := -0x8000_0000

  /**
   What the fresh blocks held that the printer got for a node: for the text of its own string or number,
   for that of its name, and for the nodes below it.
   */
  datatype Held = Held(value: seq<byte>, name: seq<byte>, kids: seq<Held>)

  const NOTHING: Held := Held([], [], [])

  function Kid(hs: seq<Held>, i: nat): Held { if i < |hs| then hs[i] else NOTHING }

  function Later(hs: seq<Held>): (later: seq<Held>)
    ensures forall i: nat :: Kid(later, i) == Kid(hs, i + 1)
  {
    if |hs| == 0 then [] else hs[1..]
  }

  /** The bytes of a block from an index on. */
  function Behind(held: seq<byte>, i: nat): seq<byte> { if i < |held| then held[i..] else [] }

  /** Five bytes of a block. */
  function Cells(held: seq<byte>, i: nat): (cells: seq<byte>)
    ensures |cells| == 5
  {
    seq(5, k requires 0 <= k < 5 => if i + k < |held| then held[i + k] else 0)
  }

  // ---------- rendering ----------

  function DigitsText(n: nat): (d: seq<byte>)
    ensures |d| > 0 && AllDigits(d)
  {
    if n < 10 then [ZERO + n] else DigitsText(n / 10) + [ZERO + n % 10]
  }

  /** %d */
  function DecimalText(n: int): seq<byte> {
    if n < 0 then [MINUS] + DigitsText(-n) else DigitsText(n)
  }

  function UpperHexDigit(d: nat): byte
    requires d < 16
  {
    if d < 10 then ZERO + d else 0x41 + (d - 10)
  }

  /** %04x of a byte; this library prints upper-case digits. */
  function HexText(b: byte): (h: seq<byte>)
    ensures |h| == 4
  {
    [ZERO, ZERO, UpperHexDigit(b / 16), UpperHexDigit(b % 16)]
  }

  /** The text that a block has when a rendering has been stored in its first W bytes. */
  function Clipped(r: seq<byte>, w: nat, held: seq<byte>): seq<byte> {
    if |r| < w then r else r[..w] + UpToNul(Behind(held, w))
  }

  predicate NeedsHex(b: byte) {
    b < 32 && b !in [0x08, 0x0C, 0x0A, 0x0D, 0x09]
  }

  /** The letter of a two-character escape. */
  function EscapeLetter(b: byte): byte {
    match b
    case 0x08 => 0x62
    case 0x0C => 0x66
    case 0x0A => 0x6E
    case 0x0D => 0x72
    case 0x09 => 0x74
    case _ => b
  }

  /** The five bytes behind the backslash of a control character without a letter, at index i of a block. */
  function HexEscape(w: nat, held: seq<byte>, i: nat, b: byte): (r: seq<byte>)
    ensures |r| == 5
  {
    var r := [LETTER_U] + HexText(b);
    if w < 5 then r[..w] + Cells(held, i)[w..] else r
  }

  function PrintChar(w: nat, held: seq<byte>, i: nat, b: byte): (r: seq<byte>)
    ensures |r| == CharRoom(b)
  {
    if NeedsHex(b) then [BACKSLASH] + HexEscape(w, held, i + 1, b)
    else if b < 32 || b == QUOTE || b == BACKSLASH then [BACKSLASH, EscapeLetter(b)]
    else [b]
  }

  /** How many bytes the first pass of print_string_ptr counts for a character. */
  function CharRoom(b: byte): nat {
    if b in [QUOTE, BACKSLASH, 0x08, 0x0C, 0x0A, 0x0D, 0x09] then 2 else if b < 32 then 6 else 1
  }

  function Room(s: seq<byte>): nat {
    if |s| == 0 then 0 else CharRoom(s[0]) + Room(s[1..])
  }

  /** The characters of a string, printed from index i of a block on. */
  function PrintChars(w: nat, held: seq<byte>, i: nat, s: seq<byte>): (r: seq<byte>)
    ensures |r| == Room(s)
    decreases s
  {
    if |s| == 0 then [] else PrintChar(w, held, i, s[0]) + PrintChars(w, held, i + CharRoom(s[0]), s[1..])
  }

  function QuotedChars(w: nat, held: seq<byte>, s: seq<byte>): (r: seq<byte>)
    ensures |r| == Room(s) + 2
  {
    [QUOTE] + (PrintChars(w, held, 1, s) + [QUOTE])
  }

  /** The text of a string: a zero byte that the block held may end it early. */
  function PrintString(w: nat, held: seq<byte>, s: seq<byte>): seq<byte> {
    UpToNul(QuotedChars(w, held, s))
  }

  function PrintNumber(w: nat, held: seq<byte>, n: int): seq<byte> {
    Clipped(DecimalText(n), w, held)
  }

  /** A number that print_number renders with %d: an integer in the range of int. */
  predicate IsInt(r: real) {
    r == r.Floor as real && INT_MIN <= r.Floor <= INT_MAX
  }

  /** Trees whose numbers are ints and whose strings are C strings. */
  predicate Printable(v: Value) {
    match v
    case Number(r) => IsInt(r)
    case String(s) => NulFree(s)
    case Array(items) => forall k :: 0 <= k < |items| ==> Printable(items[k])
    case Object(members) => forall k :: 0 <= k < |members| ==> PrintableMember(members[k])
    case _ => true
  }

  predicate PrintableMember(m: Member) {
    NulFree(m.name) && Printable(m.value)
  }

  function Print(w: nat, held: Held, v: Value): seq<byte>
    decreases v
  {
    match v
    case Null => NULL_TEXT
    case False => FALSE_TEXT
    case True => TRUE_TEXT
    case Number(r) => PrintNumber(w, held.value, r.Floor)
    case String(s) => PrintString(w, held.value, s)
    case Array(items) => [LBRACKET] + (if |items| == 0 then [RBRACKET] else PrintItems(w, held.kids, items))
    case Object(members) => [LBRACE] + (if |members| == 0 then [RBRACE] else PrintMembers(w, held.kids, members))
  }

  function PrintItems(w: nat, hs: seq<Held>, items: seq<Value>): seq<byte>
    requires |items| > 0
    decreases items
  {
    if |items| == 1 then Print(w, Kid(hs, 0), items[0]) + [RBRACKET]
    else Print(w, Kid(hs, 0), items[0]) + ([COMMA] + PrintItems(w, Later(hs), items[1..]))
  }

  function PrintMember(w: nat, held: Held, m: Member): seq<byte>
    decreases m
  {
    PrintString(w, held.name, m.name) + ([COLON] + Print(w, held, m.value))
  }

  function PrintMembers(w: nat, hs: seq<Held>, members: seq<Member>): seq<byte>
    requires |members| > 0
    decreases members
  {
    if |members| == 1 then PrintMember(w, Kid(hs, 0), members[0]) + [RBRACE]
    else PrintMember(w, Kid(hs, 0), members[0]) + ([COMMA] + PrintMembers(w, Later(hs), members[1..]))
  }

  // ---------- the blocks ----------

  const NUMBER_BLOCK: nat := 21

  function StringBlock(s: seq<byte>): nat { Room(s) + 3 }

  /** Blocks as large as those that the printer asks for. */
  predicate Recorded(held: Held, v: Value)
    decreases v
  {
    match v
    case Number(_) => |held.value| == NUMBER_BLOCK
    case String(s) => |held.value| == StringBlock(s)
    case Array(items) => |held.kids| == |items| && forall k :: 0 <= k < |items| ==> Recorded(held.kids[k], items[k])
    case Object(members) =>
      |held.kids| == |members| && forall k :: 0 <= k < |members| ==> RecordedMember(held.kids[k], members[k])
    case _ => true
  }

  predicate RecordedMember(held: Held, m: Member)
    decreases m
  {
    |held.name| == StringBlock(m.name) && Recorded(held, m.value)
  }

  /** The text of a number ends inside its block, where a rendering that does not fit has no terminator of its own. */
  predicate Ends(w: nat, held: Held, v: Value) {
    v.Number? ==> |PrintNumber(w, held.value, v.number.Floor)| < NUMBER_BLOCK
  }

  /** So do the texts of all numbers inside a value. */
  predicate InnerEnd(w: nat, held: Held, v: Value)
    decreases v
  {
    match v
    case Array(items) => forall k :: 0 <= k < |items| ==>
      Ends(w, Kid(held.kids, k), items[k]) && InnerEnd(w, Kid(held.kids, k), items[k])
    case Object(members) => forall k :: 0 <= k < |members| ==> MemberEnds(w, Kid(held.kids, k), members[k])
    case _ => true
  }

  predicate MemberEnds(w: nat, held: Held, m: Member)
    decreases m
  {
    Ends(w, held, m.value) && InnerEnd(w, held, m.value)
  }

  // ---------- when every rendering fits ----------

  predicate StringFits(w: nat, s: seq<byte>) {
    w >= 5 || forall k :: 0 <= k < |s| ==> !NeedsHex(s[k])
  }

  /** Numbers need room for a terminator; the five characters of an escape do not. */
  predicate Fits(w: nat, v: Value) {
    match v
    case Number(r) => |DecimalText(r.Floor)| < w
    case String(s) => StringFits(w, s)
    case Array(items) => forall k :: 0 <= k < |items| ==> Fits(w, items[k])
    case Object(members) => forall k :: 0 <= k < |members| ==> MemberFits(w, members[k])
    case _ => true
  }

  predicate MemberFits(w: nat, m: Member) {
    StringFits(w, m.name) && Fits(w, m.value)
  }

  // ---------- when every number inside fits ----------

  predicate NumberFits(w: nat, v: Value) { v.Number? ==> |DecimalText(v.number.Floor)| < w }

  /** Every number that is an item or the value of a member, at any depth, is rendered in fewer than W characters. */
  predicate InnerNumbersFit(w: nat, v: Value)
    decreases v
  {
    match v
    case Array(items) => forall k :: 0 <= k < |items| ==> NumberFits(w, items[k]) && InnerNumbersFit(w, items[k])
    case Object(members) => forall k :: 0 <= k < |members| ==> MemberNumbersFit(w, members[k])
    case _ => true
  }

  predicate MemberNumbersFit(w: nat, m: Member)
    decreases m
  {
    NumberFits(w, m.value) && InnerNumbersFit(w, m.value)
  }

  lemma FittingNumberEnds(w: nat, held: Held, v: Value)
    requires Printable(v) && NumberFits(w, v)
    ensures Ends(w, held, v)
  {
    if v.Number? { IntLength(v.number.Floor); }
  }

  /** Where the inner numbers fit, no text of one of them runs over the end of its block, whatever the blocks held. */
  lemma {:induction false} FittingNumbersEnd(w: nat, held: Held, v: Value)
    requires Printable(v) && InnerNumbersFit(w, v)
    ensures InnerEnd(w, held, v)
    decreases v
  {
    hide Ends, NumberFits;
    match v
    case Array(items) =>
      forall k | 0 <= k < |items|
        ensures Ends(w, Kid(held.kids, k), items[k]) && InnerEnd(w, Kid(held.kids, k), items[k])
      {
        FittingNumberEnds(w, Kid(held.kids, k), items[k]);
        FittingNumbersEnd(w, Kid(held.kids, k), items[k]);
      }
    case Object(members) =>
      forall k | 0 <= k < |members|
        ensures MemberEnds(w, Kid(held.kids, k), members[k])
      {
        assert PrintableMember(members[k]) && MemberNumbersFit(w, members[k]);
        FittingNumberEnds(w, Kid(held.kids, k), members[k].value);
        FittingNumbersEnd(w, Kid(held.kids, k), members[k].value);
      }
    case _ =>
  }

  /** Where everything fits, the numbers do. */
  lemma {:induction false} FittingNumbersFit(w: nat, v: Value)
    requires Fits(w, v)
    ensures NumberFits(w, v) && InnerNumbersFit(w, v)
    decreases v
  {
    hide StringFits;
    match v
    case Array(items) =>
      forall k | 0 <= k < |items|
        ensures NumberFits(w, items[k]) && InnerNumbersFit(w, items[k])
      {
        FittingNumbersFit(w, items[k]);
      }
    case Object(members) =>
      forall k | 0 <= k < |members|
        ensures MemberNumbersFit(w, members[k])
      {
        assert MemberFits(w, members[k]);
        FittingNumbersFit(w, members[k].value);
      }
    case _ =>
  }

  /** Where everything fits, no text of a number runs over the end of its block. */
  lemma FittingEnds(w: nat, held: Held, v: Value)
    requires Printable(v) && Fits(w, v)
    ensures Ends(w, held, v) && InnerEnd(w, held, v)
  {
    FittingNumbersFit(w, v);
    FittingNumberEnds(w, held, v);
    FittingNumbersEnd(w, held, v);
  }

  // ---------- the printed text in the grammar ----------

  function CharOf(b: byte): StrChar {
    if NeedsHex(b) then Unit(HexText(b))
    else if b < 32 || b == QUOTE || b == BACKSLASH then Escape(EscapeLetter(b))
    else Raw(b)
  }

  function CharsOf(s: seq<byte>): seq<StrChar> {
    if |s| == 0 then [] else [CharOf(s[0])] + CharsOf(s[1..])
  }

  function NumberTextOf(n: int): NumberText {
    NumberText(n < 0, DigitsText(if n < 0 then -n else n), [], NoExponent)
  }

  function TextOf(v: Value): Text {
    match v
    case Null => NullText
    case False => FalseText
    case True => TrueText
    case Number(r) => NumText(NumberTextOf(r.Floor))
    case String(s) => StrText(CharsOf(s))
    case Array(items) => ArrText([], ItemsOf(items))
    case Object(members) => ObjText([], MembersOf(members))
  }

  function ItemsOf(items: seq<Value>): (es: seq<Item>)
    ensures |es| == |items|
  {
    if |items| == 0 then [] else [Item([], TextOf(items[0]), [])] + ItemsOf(items[1..])
  }

  function MemberOf(m: Member): MemberText {
    MemberText([], CharsOf(m.name), [], [], TextOf(m.value), [])
  }

  function MembersOf(members: seq<Member>): (ms: seq<MemberText>)
    ensures |ms| == |members|
  {
    if |members| == 0 then [] else [MemberOf(members[0])] + MembersOf(members[1..])
  }

  // ---------- strings ----------

  lemma CharRoundTrip(b: byte)
    requires b != 0
    ensures ValidChar(CharOf(b))
    ensures NeedsHex(b) ==> HexValue(HexText(b)) == b && Utf8(b) == [b]
    ensures CharOf(b).Escape? ==> SimpleEscape(EscapeLetter(b)) == b
  {
    if NeedsHex(b) {
      HexTextValue(b);
    }
  }

  lemma HexTextValue(b: byte)
    ensures HexValue(HexText(b)) == b && forall k :: 0 <= k < 4 ==> HexDigit(HexText(b)[k]).Some?
  {
    var h := HexText(b);
    assert h[..3] == [ZERO, ZERO, UpperHexDigit(b / 16)];
    assert h[..3][..2] == [ZERO, ZERO];
    assert h[..3][..2][..1] == [ZERO];
    assert HexValue([ZERO]) == 0;
    assert HexValue([ZERO, ZERO]) == 0;
    assert HexValue(h[..3]) == b / 16;
  }

  lemma {:induction false} StringRoundTrip(s: seq<byte>)
    requires NulFree(s)
    ensures ValidChars(CharsOf(s)) && CharsMeaning(CharsOf(s)) == s
  {
    if |s| > 0 {
      hide HexValue, Utf8, HexText;
      CharRoundTrip(s[0]);
      StringRoundTrip(s[1..]);
      assert CharsOf(s)[1..] == CharsOf(s[1..]);
    }
  }

  lemma {:induction false} PrintCharsBytes(w: nat, held: seq<byte>, i: nat, s: seq<byte>)
    requires StringFits(w, s)
    ensures PrintChars(w, held, i, s) == CharsBytes(CharsOf(s))
    decreases s
  {
    if |s| > 0 {
      hide Cells;
      PrintCharsBytes(w, held, i + CharRoom(s[0]), s[1..]);
      assert CharsOf(s)[1..] == CharsOf(s[1..]);
    }
  }

  /** A string that fits is printed as its characters between quotation marks. */
  lemma PrintStringBytes(w: nat, held: seq<byte>, s: seq<byte>)
    requires StringFits(w, s) && NulFree(s)
    ensures PrintString(w, held, s) == QuotedChars(w, held, s) == StringBytes(CharsOf(s))
  {
    hide CharsOf, CharsBytes;
    PrintCharsBytes(w, held, 1, s);
    FittingIsNulFree(w, held, 1, s);
  }

  lemma {:induction false} FittingIsNulFree(w: nat, held: seq<byte>, i: nat, s: seq<byte>)
    requires StringFits(w, s) && NulFree(s)
    ensures NulFree(PrintChars(w, held, i, s))
    decreases s
  {
    if |s| > 0 {
      hide Cells;
      FittingIsNulFree(w, held, i + CharRoom(s[0]), s[1..]);
    }
  }

  // ---------- numbers ----------

  lemma {:induction false} DigitsRoundTrip(n: nat)
    ensures DecimalValue(DigitsText(n)) == n
    ensures DigitsText(n)[0] == ZERO ==> |DigitsText(n)| == 1
  {
    if n >= 10 {
      DigitsRoundTrip(n / 10);
      var d := DigitsText(n);
      assert d[..|d| - 1] == DigitsText(n / 10);
      LeadingDigit(n / 10);
    }
  }

  lemma {:induction false} LeadingDigit(n: nat)
    requires n > 0
    ensures DigitsText(n)[0] != ZERO
  {
    if n >= 10 { LeadingDigit(n / 10); }
  }

  lemma NumberRoundTrip(n: int)
    ensures ValidNumber(NumberTextOf(n)) && NumberMeaning(NumberTextOf(n)) == n as real
    ensures NumberBytes(NumberTextOf(n)) == DecimalText(n)
  {
    var m := if n < 0 then -n else n;
    DigitsRoundTrip(m);
    var t := NumberTextOf(n);
    assert FractionBytes(t.fraction) + ExponentBytes(t.exponent) == [];
    assert t.integer + [] == t.integer;
    assert DecimalValue(t.fraction) == 0;
  }

  lemma {:induction false} DigitCount(n: nat, k: nat)
    requires n < Power10(k + 1)
    ensures |DigitsText(n)| <= k + 1
  {
    if k > 0 && n >= 10 { DigitCount(n / 10, k - 1); }
  }

  function Power10(k: nat): nat { if k == 0 then 1 else 10 * Power10(k - 1) }

  /** An int has at most ten digits and a sign, so 21 bytes are enough for it. */
  lemma IntLength(n: int)
    requires INT_MIN <= n <= INT_MAX
    ensures |DecimalText(n)| <= 11
  {
    assert Power10(10) == 10000000000;
    DigitCount(if n < 0 then -n else n, 9);
  }

  // ---------- trees ----------

  /** Reading back what is printed, as a fact about the grammar: the printed text means the tree. */
  lemma {:induction false} TreeRoundTrip(v: Value)
    requires Printable(v)
    ensures Valid(TextOf(v)) && Meaning(TextOf(v)) == v
    decreases v, 0
  {
    match v
    case Number(r) => NumberRoundTrip(r.Floor);
    case String(s) => StringRoundTrip(s);
    case Array(items) => ItemsRoundTrip(items);
    case Object(members) => MembersRoundTrip(members);
    case _ =>
  }

  lemma {:induction false} ItemsRoundTrip(items: seq<Value>)
    requires forall k :: 0 <= k < |items| ==> Printable(items[k])
    ensures forall k :: 0 <= k < |items| ==> var e := ItemsOf(items)[k];
      ValidItem(e) && LooseItem(e) && WellEscaped(e.value)
    ensures ItemsMeaning(ItemsOf(items)) == items
    decreases items, 1
  {
    if |items| > 0 {
      hide Meaning, TextOf;
      TreeRoundTrip(items[0]);
      ItemsRoundTrip(items[1..]);
      assert ItemsOf(items)[1..] == ItemsOf(items[1..]);
    }
  }

  lemma {:induction false} MembersRoundTrip(members: seq<Member>)
    requires forall k :: 0 <= k < |members| ==> PrintableMember(members[k])
    ensures forall k :: 0 <= k < |members| ==> var m := MembersOf(members)[k];
      ValidMember(m) && LooseMember(m) && WellEscapedMember(m)
    ensures MembersMeaning(MembersOf(members)) == members
    decreases members, 1
  {
    if |members| > 0 {
      hide Meaning, TextOf, CharsMeaning, CharsOf, ValidMember, WellEscapedMember, Valid, Loose;
      assert PrintableMember(members[0]);
      StringRoundTrip(members[0].name);
      TreeRoundTrip(members[0].value);
      MemberIsValid(members[0]);
      MembersRoundTrip(members[1..]);
      assert MembersOf(members)[1..] == MembersOf(members[1..]);
    }
  }

  lemma MemberIsValid(m: Member)
    requires ValidChars(CharsOf(m.name)) && Valid(TextOf(m.value))
    ensures var t := MemberOf(m); ValidMember(t) && LooseMember(t) && WellEscapedMember(t)
  {
    hide TextOf, CharsOf;
  }

  lemma {:induction false} PrintIsText(w: nat, held: Held, v: Value)
    requires Printable(v) && Fits(w, v)
    ensures Print(w, held, v) == TextBytes(TextOf(v))
    decreases v, 0
  {
    hide PrintItems, PrintMembers, ItemsBytes, MembersBytes, ItemsOf, MembersOf, PrintString, CharsOf, StringBytes;
    hide DecimalText, NumberTextOf, NumberBytes;
    match v
    case Number(r) => NumberRoundTrip(r.Floor);
    case String(s) => PrintStringBytes(w, held.value, s);
    case Array(items) =>
      if |items| > 0 {
        PrintItemsIsText(w, held.kids, items);
        assert [] + PrintItems(w, held.kids, items) == PrintItems(w, held.kids, items);
      }
    case Object(members) =>
      if |members| > 0 {
        PrintMembersIsText(w, held.kids, members);
        assert [] + PrintMembers(w, held.kids, members) == PrintMembers(w, held.kids, members);
      }
    case _ =>
  }

  lemma {:induction false} PrintItemsIsText(w: nat, hs: seq<Held>, items: seq<Value>)
    requires |items| > 0 && forall k :: 0 <= k < |items| ==> Printable(items[k]) && Fits(w, items[k])
    ensures PrintItems(w, hs, items) == ItemsBytes(ItemsOf(items))
    decreases items, 1
  {
    hide Print, TextBytes, TextOf;
    PrintIsText(w, Kid(hs, 0), items[0]);
    var e := Item([], TextOf(items[0]), []);
    assert ItemBytes(e) == TextBytes(e.value);
    if |items| > 1 {
      PrintItemsIsText(w, Later(hs), items[1..]);
      assert ItemsOf(items)[1..] == ItemsOf(items[1..]);
    }
  }

  lemma {:induction false} PrintMembersIsText(w: nat, hs: seq<Held>, members: seq<Member>)
    requires |members| > 0
    requires forall k :: 0 <= k < |members| ==> PrintableMember(members[k]) && MemberFits(w, members[k])
    ensures PrintMembers(w, hs, members) == MembersBytes(MembersOf(members))
    decreases members, 1
  {
    hide Print, TextBytes, TextOf, PrintString, StringBytes;
    var m := members[0];
    assert PrintableMember(m) && MemberFits(w, m);
    PrintIsText(w, Kid(hs, 0), m.value);
    PrintStringBytes(w, Kid(hs, 0).name, m.name);
    MemberOfBytes(m, PrintString(w, Kid(hs, 0).name, m.name), Print(w, Kid(hs, 0), m.value));
    if |members| > 1 {
      PrintMembersIsText(w, Later(hs), members[1..]);
      assert MembersOf(members)[1..] == MembersOf(members[1..]);
    }
  }

  lemma MemberOfBytes(m: Member, name: seq<byte>, value: seq<byte>)
    requires name == StringBytes(CharsOf(m.name)) && value == TextBytes(TextOf(m.value))
    ensures MemberBytes(MemberOf(m)) == name + ([COLON] + value)
  {
    hide StringBytes, TextBytes, TextOf, CharsOf;
    var t := MemberOf(m);
    assert NameBytes(t) == name + [COLON];
    assert TextBytes(t.value) + t.after == value;
  }

  /** Printing a tree whose renderings fit and parsing the text gives the tree, inside any text. */
  lemma RoundTripAt(w: nat, held: Held, v: Value, s: seq<byte>, i: nat, end: nat)
    requires Printable(v) && Fits(w, v)
    requires Occurs(s, i, Print(w, held, v)) && end == i + |Print(w, held, v)| && Follows(s, end)
    ensures ParseValue(s, i) == Done(end, v)
  {
    hide ParseValue, Print, TextBytes, TextOf, Meaning;
    PrintIsText(w, held, v);
    TreeRoundTrip(v);
    ValueComplete(s, i, TextOf(v), end);
  }

  /** The whole-tree round trip. */
  lemma RoundTrip(w: nat, held: Held, v: Value)
    requires Printable(v) && Fits(w, v)
    ensures ParseText(Print(w, held, v), true) == Done(|Print(w, held, v)|, v)
  {
    hide ParseText, Print, TextBytes, TextOf, Meaning;
    PrintIsText(w, held, v);
    TreeRoundTrip(v);
    GrammarComplete([], TextOf(v), []);
    assert [] + (Print(w, held, v) + []) == Print(w, held, v);
  }
}
