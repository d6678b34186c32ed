/**
 The grammar of RFC 8259, sections 2 to 7, and the looser one of the parser, as syntax trees with their texts
 and their values. The values are defined here without the parser: numbers as decimal fractions, strings
 through UTF-16.
 */
module Grammar {
  import opened Bytes
  import opened Unicode
  import opened Json

  datatype StrChar =
    | Raw(b: byte)
    | Escape(c: byte)
    | Unit(hex: seq<byte>)

  datatype Exponent = NoExponent | Exponent(mark: byte, sign: seq<byte>, digits: seq<byte>)

  datatype NumberText = NumberText(negative: bool, integer: seq<byte>, fraction: seq<byte>, exponent: Exponent)

  datatype Text =
    | NullText
    | FalseText
    | TrueText
    | NumText(n: NumberText)
    | StrText(chars: seq<StrChar>)
    | OpenText(chars: seq<StrChar>)
    | ArrText(blank: seq<byte>, items: seq<Item>)
    | ObjText(blank: seq<byte>, members: seq<MemberText>)

  datatype Item = Item(before: seq<byte>, value: Text, after: seq<byte>)

  datatype MemberText = MemberText(before: seq<byte>, name: seq<StrChar>, afterName: seq<byte>,
                                   beforeValue: seq<byte>, value: Text, after: seq<byte>)

  // ---------- what the parser takes ----------

  /** All control characters are blanks. */
  predicate LooseBlanks(s: seq<byte>) {
    forall k :: 0 <= k < |s| ==> s[k] <= 32
  }

  /** Any byte may be raw or follow a backslash, and any four \u. */
  predicate LooseChar(c: StrChar) {
    match c
    case Raw(b) => b != QUOTE && b != BACKSLASH
    case Escape(c) => c != LETTER_U
    case Unit(hex) => |hex| == 4
  }

  predicate LooseChars(cs: seq<StrChar>) {
    forall k :: 0 <= k < |cs| ==> LooseChar(cs[k])
  }

  /** One zero may lead; behind a minus sign there need not be a digit, and behind the mark of an exponent neither. */
  predicate LooseNumber(n: NumberText) {
    && LooseInteger(n.integer) && (n.negative || |n.integer| > 0)
    && AllDigits(n.fraction) && LooseExponent(n.exponent)
  }

  predicate LooseInteger(d: seq<byte>) {
    AllDigits(d) && (|d| >= 2 && d[0] == ZERO ==> d[1] != ZERO)
  }

  predicate LooseExponent(e: Exponent) {
    match e
    case NoExponent => true
    case Exponent(mark, sign, digits) =>
      (mark == 0x65 || mark == 0x45) && sign in [[], [PLUS], [MINUS]] && AllDigits(digits)
  }

  /** A string may lack its closing quotation mark, where it is the whole text. */
  predicate Loose(t: Text) {
    match t
    case NumText(n) => LooseNumber(n)
    case StrText(chars) => LooseChars(chars)
    case OpenText(chars) => LooseChars(chars)
    case ArrText(blank, items) => LooseBlanks(blank) && forall k :: 0 <= k < |items| ==> LooseItem(items[k])
    case ObjText(blank, members) => LooseBlanks(blank) && forall k :: 0 <= k < |members| ==> LooseMember(members[k])
    case _ => true
  }

  predicate LooseItem(e: Item) {
    LooseBlanks(e.before) && Loose(e.value) && !e.value.OpenText? && LooseBlanks(e.after)
  }

  predicate LooseMember(m: MemberText) {
    LooseName(m) && Loose(m.value) && !m.value.OpenText? && LooseBlanks(m.after)
  }

  /** The name of a member, with its colon and the blanks around them. */
  predicate LooseName(m: MemberText) {
    LooseBlanks(m.before) && LooseChars(m.name) && LooseBlanks(m.afterName) && LooseBlanks(m.beforeValue)
  }

  // ---------- complete escapes ----------

  /** Behind \u stand four characters that neither end the string nor start an escape. */
  predicate LenientChar(c: StrChar) {
    LooseChar(c) && (c.Unit? ==> forall k :: 0 <= k < 4 ==> c.hex[k] != QUOTE && c.hex[k] != BACKSLASH)
  }

  predicate LenientChars(cs: seq<StrChar>) {
    forall k :: 0 <= k < |cs| ==> LenientChar(cs[k])
  }

  /** All strings of a text have complete escapes. */
  predicate WellEscaped(t: Text) {
    && Loose(t)
    && match t
       case StrText(chars) => LenientChars(chars)
       case OpenText(chars) => LenientChars(chars)
       case ArrText(_, items) => forall k :: 0 <= k < |items| ==> WellEscaped(items[k].value)
       case ObjText(_, members) => forall k :: 0 <= k < |members| ==> WellEscapedMember(members[k])
       case _ => true
  }

  predicate WellEscapedMember(m: MemberText) { LenientChars(m.name) && WellEscaped(m.value) }

  // ---------- what RFC 8259 allows ----------

  /** Section 2. */
  predicate IsBlank(b: byte) { b == 0x20 || b == 0x09 || b == 0x0A || b == 0x0D }

  predicate Blanks(s: seq<byte>) {
    forall k :: 0 <= k < |s| ==> IsBlank(s[k])
  }

  /** Section 7. */
  predicate ValidChar(c: StrChar) {
    && LenientChar(c)
    && match c
       case Raw(b) => b >= 0x20
       case Escape(c) => c in [QUOTE, BACKSLASH, 0x2F, 0x62, 0x66, 0x6E, 0x72, 0x74]
       case Unit(hex) => forall k :: 0 <= k < 4 ==> HexDigit(hex[k]).Some?
  }

  predicate ValidChars(cs: seq<StrChar>) {
    forall k :: 0 <= k < |cs| ==> ValidChar(cs[k])
  }

  /** Section 6. */
  predicate ValidNumber(n: NumberText) {
    && LooseNumber(n)
    && |n.integer| > 0 && (n.integer[0] == ZERO ==> |n.integer| == 1)
    && (n.exponent.Exponent? ==> |n.exponent.digits| > 0)
  }

  /** Sections 3 to 5. */
  predicate Valid(t: Text) {
    && WellEscaped(t)
    && match t
       case NumText(n) => ValidNumber(n)
       case StrText(chars) => ValidChars(chars)
       case OpenText(_) => false
       case ArrText(blank, items) => Blanks(blank) && forall k :: 0 <= k < |items| ==> ValidItem(items[k])
       case ObjText(blank, members) => Blanks(blank) && forall k :: 0 <= k < |members| ==> ValidMember(members[k])
       case _ => true
  }

  predicate ValidItem(e: Item) {
    Blanks(e.before) && Valid(e.value) && Blanks(e.after)
  }

  predicate ValidMember(m: MemberText) {
    && Blanks(m.before) && ValidChars(m.name) && Blanks(m.afterName)
    && Blanks(m.beforeValue) && Valid(m.value) && Blanks(m.after)
  }

  // ---------- texts ----------

  function CharBytes(c: StrChar): seq<byte> {
    match c
    case Raw(b) => [b]
    case Escape(c) => [BACKSLASH, c]
    case Unit(hex) => [BACKSLASH, LETTER_U] + hex
  }

  function CharsBytes(cs: seq<StrChar>): seq<byte> {
    if |cs| == 0 then [] else CharBytes(cs[0]) + CharsBytes(cs[1..])
  }

  function StringBytes(cs: seq<StrChar>): seq<byte> {
    [QUOTE] + (CharsBytes(cs) + [QUOTE])
  }

  function FractionBytes(fraction: seq<byte>): seq<byte> {
    if |fraction| == 0 then [] else [DOT] + fraction
  }

  function ExponentBytes(e: Exponent): seq<byte> {
    match e
    case NoExponent => []
    case Exponent(mark, sign, digits) => [mark] + (sign + digits)
  }

  function SignBytes(negative: bool): seq<byte> {
    if negative then [MINUS] else []
  }

  function NumberBytes(n: NumberText): seq<byte> {
    SignBytes(n.negative) + (n.integer + (FractionBytes(n.fraction) + ExponentBytes(n.exponent)))
  }

  function TextBytes(t: Text): seq<byte> {
    match t
    case NullText => [0x6E, 0x75, 0x6C, 0x6C]
    case FalseText => [0x66, 0x61, 0x6C, 0x73, 0x65]
    case TrueText => [0x74, 0x72, 0x75, 0x65]
    case NumText(n) => NumberBytes(n)
    case StrText(chars) => StringBytes(chars)
    case OpenText(chars) => [QUOTE] + CharsBytes(chars)
    case ArrText(blank, items) =>
      [LBRACKET] + (blank + (if |items| == 0 then [RBRACKET] else ItemsBytes(items)))
    case ObjText(blank, members) =>
      [LBRACE] + (blank + (if |members| == 0 then [RBRACE] else MembersBytes(members)))
  }

  function ItemBytes(e: Item): seq<byte> {
    e.before + (TextBytes(e.value) + e.after)
  }

  /** The items with their separators, and the closing bracket. */
  function ItemsBytes(items: seq<Item>): seq<byte>
    requires |items| > 0
  {
    if |items| == 1 then ItemBytes(items[0]) + [RBRACKET]
    else ItemBytes(items[0]) + ([COMMA] + ItemsBytes(items[1..]))
  }

  function NameBytes(m: MemberText): seq<byte> {
    m.before + (StringBytes(m.name) + (m.afterName + ([COLON] + m.beforeValue)))
  }

  function MemberBytes(m: MemberText): seq<byte> {
    NameBytes(m) + (TextBytes(m.value) + m.after)
  }

  /** The members with their separators, and the closing brace. */
  function MembersBytes(members: seq<MemberText>): seq<byte>
    requires |members| > 0
  {
    if |members| == 1 then MemberBytes(members[0]) + [RBRACE]
    else MemberBytes(members[0]) + ([COMMA] + MembersBytes(members[1..]))
  }

  // ---------- values ----------

  /** A number: its integer and fraction parts, times a power of ten. */
  function NumberMeaning(n: NumberText): real
    requires LooseNumber(n)
  {
    var fraction := Scaled(DecimalValue(n.fraction) as real, -|n.fraction|);
    var magnitude := Scaled(DecimalValue(n.integer) as real + fraction, ExponentMeaning(n.exponent));
    if n.negative then -magnitude else magnitude
  }

  function ExponentMeaning(e: Exponent): int
    requires e.Exponent? ==> AllDigits(e.digits)
  {
    match e
    case NoExponent => 0
    case Exponent(_, sign, digits) => (if sign == [MINUS] then -1 else 1) * DecimalValue(digits)
  }

  /**
   The bytes of a string. Raw bytes stand for themselves. Escaped UTF-16 code units are decoded by
   section 2.2 of RFC 2781; where that is in error the units looked at are dropped, and so is U+0000.
   */
  function CharsMeaning(cs: seq<StrChar>): seq<byte>
    requires LooseChars(cs)
  {
    if |cs| == 0 then []
    else
      match cs[0]
      case Raw(b) => [b] + CharsMeaning(cs[1..])
      case Escape(c) => [SimpleEscape(c)] + CharsMeaning(cs[1..])
      case Unit(hex) =>
        var u := HexValue(hex);
        if u == 0 || IsLow(u) then CharsMeaning(cs[1..])
        else if !IsHigh(u) then Utf8(u) + CharsMeaning(cs[1..])
        else if |cs| == 1 || !cs[1].Unit? then CharsMeaning(cs[1..])
        else
          assert LooseChar(cs[1]);
          var u2 := HexValue(cs[1].hex);
          if IsLow(u2) then Utf8(0x10000 + 0x400 * (u - 0xD800) + (u2 - 0xDC00)) + CharsMeaning(cs[2..])
          else CharsMeaning(cs[2..])
  }

  function Meaning(t: Text): Value
    requires Loose(t)
  {
    match t
    case NullText => Null
    case FalseText => False
    case TrueText => True
    case NumText(n) => Number(NumberMeaning(n))
    case StrText(chars) => String(CharsMeaning(chars))
    case OpenText(chars) => String(CharsMeaning(chars))
    case ArrText(_, items) => Array(ItemsMeaning(items))
    case ObjText(_, members) => Object(MembersMeaning(members))
  }

  function ItemsMeaning(items: seq<Item>): seq<Value>
    requires forall k :: 0 <= k < |items| ==> LooseItem(items[k])
  {
    if |items| == 0 then []
    else
      assert LooseItem(items[0]);
      [Meaning(items[0].value)] + ItemsMeaning(items[1..])
  }

  function MembersMeaning(members: seq<MemberText>): seq<Member>
    requires forall k :: 0 <= k < |members| ==> LooseMember(members[k])
  {
    if |members| == 0 then []
    else
      assert LooseMember(members[0]);
      [Member(CharsMeaning(members[0].name), Meaning(members[0].value))] + MembersMeaning(members[1..])
  }
}
