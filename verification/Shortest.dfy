/**
 What unformatted means: of all texts of RFC 8259 for a tree whose numbers are written without fraction and exponent,
 the printed one is the shortest. It holds no blank and no escape that could be spared.
 */
module Shortest {
  import opened Bytes
  import opened Unicode
  import opened Json
  import opened Grammar
  import opened JsonParse
  import opened Completeness
  import opened JsonPrint

  /** No number has a fraction or an exponent. */
  predicate PlainNumbers(t: Text) {
    match t
    case NumText(n) => n.fraction == [] && n.exponent.NoExponent?
    case ArrText(_, items) => forall k :: 0 <= k < |items| ==> PlainNumbers(items[k].value)
    case ObjText(_, members) => forall k :: 0 <= k < |members| ==> PlainNumbers(members[k].value)
    case _ => true
  }

  // ---------- strings ----------

  lemma {:induction false} RoomOfChars(s: seq<byte>)
    ensures |CharsBytes(CharsOf(s))| == Room(s)
  {
    if |s| > 0 {
      RoomOfChars(s[1..]);
      assert CharsOf(s)[1..] == CharsOf(s[1..]);
    }
  }

  lemma {:induction false} RoomAdds(a: seq<byte>, b: seq<byte>)
    ensures Room(a + b) == Room(a) + Room(b)
  {
    if a == [] {
      assert a + b == b;
    } else {
      RoomAdds(a[1..], b);
      assert (a + b)[1..] == a[1..] + b;
    }
  }

  /** One byte takes six characters at most, and one from 0x80 on takes one. */
  lemma RoomOfByte(b: byte)
    ensures Room([b]) == CharRoom(b) <= 6
  {
    assert [b][1..] == [];
  }

  lemma {:induction false} RoomOfHigh(s: seq<byte>)
    requires forall k :: 0 <= k < |s| ==> s[k] >= 0x80
    ensures Room(s) == |s|
  {
    if |s| > 0 { RoomOfHigh(s[1..]); }
  }

  /** The UTF-8 of a code point takes no more room than its escape. */
  lemma RoomOfUtf8(cp: nat)
    requires IsScalar(cp)
    ensures Room(Utf8(cp)) <= 6
  {
    if cp < 0x80 {
      RoomOfByte(cp);
    } else {
      RoomOfHigh(Utf8(cp));
    }
  }

  /** A string is printed no longer than any spelling of it. */
  lemma {:induction false} StringIsShortest(cs: seq<StrChar>)
    requires ValidChars(cs)
    ensures Room(CharsMeaning(cs)) <= |CharsBytes(cs)|
    decreases |cs|
  {
    hide CharsMeaning, Utf8, HexValue, Room, CharRoom;
    if cs == [] {
      NoRoom();
    } else {
      var c, rest := cs[0], cs[1..];
      assert ValidChar(c) && cs == [c] + rest;
      StringIsShortest(rest);
      if c.Unit? && IsHigh(HexValue(c.hex)) && rest != [] && rest[0].Unit? {
        assert ValidChar(rest[0]) && rest == [rest[0]] + rest[1..];
        StringIsShortest(rest[1..]);
        PairIsShorter(c.hex, rest[0].hex, rest[1..]);
      } else {
        CharIsShorter(c, rest);
      }
    }
  }

  lemma NoRoom()
    ensures CharsMeaning([]) == [] && Room([]) == 0
  {
  }

  lemma CharIsShorter(c: StrChar, rest: seq<StrChar>)
    requires ValidChar(c) && ValidChars(rest)
    requires c.Unit? && IsHigh(HexValue(c.hex)) ==> rest == [] || !rest[0].Unit?
    ensures Room(CharsMeaning([c] + rest)) <= |CharBytes(c)| + Room(CharsMeaning(rest))
  {
    hide Utf8, HexValue, Room;
    var out := OwnBytes(c);
    OneCharMeaning(c, rest);
    RoomAdds(out, CharsMeaning(rest));
    if c.Unit? {
      if out != [] { RoomOfUtf8(HexValue(c.hex)); } else { NoRoom(); }
    } else {
      RoomOfByte(out[0]);
      assert out == [out[0]];
    }
  }

  /** The bytes of a character that is not the half of a pair. */
  function OwnBytes(c: StrChar): seq<byte>
    requires LooseChar(c)
  {
    match c
    case Raw(b) => [b]
    case Escape(e) => [SimpleEscape(e)]
    case Unit(hex) => var u := HexValue(hex); if u == 0 || IsHigh(u) || IsLow(u) then [] else Utf8(u)
  }

  lemma OneCharMeaning(c: StrChar, rest: seq<StrChar>)
    requires LooseChar(c) && LooseChars(rest)
    requires c.Unit? && IsHigh(HexValue(c.hex)) ==> rest == [] || !rest[0].Unit?
    ensures CharsMeaning([c] + rest) == OwnBytes(c) + CharsMeaning(rest)
  {
    hide Utf8, HexValue;
    assert ([c] + rest)[1..] == rest;
  }

  lemma PairIsShorter(high: seq<byte>, second: seq<byte>, rest: seq<StrChar>)
    requires LooseChar(Unit(high)) && LooseChar(Unit(second)) && LooseChars(rest) && IsHigh(HexValue(high))
    ensures LooseChars([Unit(high)] + ([Unit(second)] + rest))
    ensures Room(CharsMeaning([Unit(high)] + ([Unit(second)] + rest))) <= 6 + Room(CharsMeaning(rest))
  {
    hide CharsMeaning, HexValue, Room, PairBytes;
    PairMeaning(high, second, rest);
    var u, u2 := HexValue(high), HexValue(second);
    RoomOfPair(u, u2);
    RoomAdds(PairBytes(u, u2), CharsMeaning(rest));
  }

  lemma RoomOfPair(high: nat, u2: nat)
    requires IsHigh(high)
    ensures Room(PairBytes(high, u2)) <= 6
  {
    hide Utf8, Combine;
    if IsLow(u2) {
      CombineInvertsUtf16(high, u2);
      RoomOfUtf8(Combine(high, u2));
    }
  }

  // ---------- numbers ----------

  lemma {:induction false} DigitsAreShortest(d: seq<byte>)
    requires AllDigits(d) && |d| > 0
    ensures |DigitsText(DecimalValue(d))| <= |d|
  {
    var front := d[..|d| - 1];
    if |front| == 0 {
      assert DecimalValue(front) == 0;
    } else {
      DigitsAreShortest(front);
      var n := DecimalValue(d);
      assert n / 10 == DecimalValue(front);
    }
  }

  lemma NumberIsShortest(n: NumberText)
    requires ValidNumber(n) && n.fraction == [] && n.exponent.NoExponent?
    ensures |NumberBytes(NumberTextOf(NumberMeaning(n).Floor))| <= |NumberBytes(n)|
  {
    var m: int := DecimalValue(n.integer);
    DigitsAreShortest(n.integer);
    assert DecimalValue(n.fraction) == 0;
    assert NumberMeaning(n) == (if n.negative then -m else m) as real;
    NumberRoundTrip(if n.negative then -m else m);
    assert FractionBytes(n.fraction) + ExponentBytes(n.exponent) == [];
  }

  // ---------- trees ----------

  /** Of all texts for a tree with plain numbers the printed one is the shortest. */
  lemma {:induction false} TextIsShortest(t: Text)
    requires Valid(t) && PlainNumbers(t)
    ensures |TextBytes(TextOf(Meaning(t)))| <= |TextBytes(t)|
    decreases t, 1
  {
    hide NumberBytes, NumberTextOf, NumberMeaning, CharsOf, CharsMeaning, ItemsOf, MembersOf, ItemsMeaning;
    hide MembersMeaning, ItemsBytes, MembersBytes, CharsBytes, Valid, ValidNumber, ValidChars;
    ValidParts(t);
    match t
    case NumText(n) => NumberIsShortest(n);
    case StrText(chars) =>
      StringIsShortest(chars);
      RoomOfChars(CharsMeaning(chars));
    case ArrText(blank, items) =>
      if items != [] { ItemsAreShortest(items); }
      SameItems(items);
    case ObjText(blank, members) =>
      if members != [] { MembersAreShortest(members); }
      SameMembers(members);
    case _ =>
  }

  lemma ValidParts(t: Text)
    requires Valid(t)
    ensures Loose(t) && !t.OpenText? && (t.NumText? ==> ValidNumber(t.n)) && (t.StrText? ==> ValidChars(t.chars))
    ensures t.ArrText? ==> forall k :: 0 <= k < |t.items| ==> ValidItem(t.items[k])
    ensures t.ObjText? ==> forall k :: 0 <= k < |t.members| ==> ValidMember(t.members[k])
  {
  }

  lemma {:induction false} SameItems(items: seq<Item>)
    requires forall k :: 0 <= k < |items| ==> LooseItem(items[k])
    ensures |ItemsOf(ItemsMeaning(items))| == |items|
  {
    hide Meaning, Loose;
    if items != [] { SameItems(items[1..]); }
  }

  lemma {:induction false} SameMembers(members: seq<MemberText>)
    requires forall k :: 0 <= k < |members| ==> LooseMember(members[k])
    ensures |MembersOf(MembersMeaning(members))| == |members|
  {
    hide Meaning, Loose, CharsMeaning;
    if members != [] { SameMembers(members[1..]); }
  }

  lemma {:induction false} ItemsAreShortest(items: seq<Item>)
    requires |items| > 0
    requires forall k :: 0 <= k < |items| ==> LooseItem(items[k])
    requires forall k :: 0 <= k < |items| ==> ValidItem(items[k]) && PlainNumbers(items[k].value)
    ensures |ItemsOf(ItemsMeaning(items))| > 0
    ensures |ItemsBytes(ItemsOf(ItemsMeaning(items)))| <= |ItemsBytes(items)|
    decreases items, 0
  {
    hide TextBytes, TextOf, Meaning, Valid, Loose, PlainNumbers;
    var e := items[0];
    assert ValidItem(e) && LooseItem(e);
    TextIsShortest(e.value);
    var values := ItemsMeaning(items);
    assert values[0] == Meaning(e.value) && values[1..] == ItemsMeaning(items[1..]);
    SameItems(items);
    var es := ItemsOf(values);
    assert es[0] == Item([], TextOf(values[0]), []) && es[1..] == ItemsOf(values[1..]);
    assert |ItemBytes(es[0])| == |TextBytes(TextOf(values[0]))|;
    if |items| > 1 {
      ItemsAreShortest(items[1..]);
    }
  }

  lemma {:induction false} MembersAreShortest(members: seq<MemberText>)
    requires |members| > 0
    requires forall k :: 0 <= k < |members| ==> LooseMember(members[k])
    requires forall k :: 0 <= k < |members| ==> ValidMember(members[k]) && PlainNumbers(members[k].value)
    ensures |MembersOf(MembersMeaning(members))| > 0
    ensures |MembersBytes(MembersOf(MembersMeaning(members)))| <= |MembersBytes(members)|
    decreases members, 0
  {
    hide TextBytes, TextOf, Meaning, Valid, Loose, PlainNumbers, CharsMeaning, CharsOf, ValidChars, CharsBytes;
    hide MemberBytes;
    var m := members[0];
    assert ValidMember(m) && LooseMember(m);
    TextIsShortest(m.value);
    StringIsShortest(m.name);
    RoomOfChars(CharsMeaning(m.name));
    var values := MembersMeaning(members);
    MembersCons(members);
    SameMembers(members);
    var ms := MembersOf(values);
    assert ms[0] == MemberOf(values[0]) && ms[1..] == MembersOf(values[1..]);
    MemberLength(m);
    MemberLength(ms[0]);
    if |members| > 1 {
      MembersAreShortest(members[1..]);
    }
  }

  lemma MembersCons(members: seq<MemberText>)
    requires |members| > 0 && forall k :: 0 <= k < |members| ==> LooseMember(members[k])
    ensures LooseMember(members[0]) && |MembersMeaning(members)| > 0
    ensures MembersMeaning(members)[0] == Member(CharsMeaning(members[0].name), Meaning(members[0].value))
    ensures MembersMeaning(members)[1..] == MembersMeaning(members[1..])
  {
    hide Meaning, Loose, CharsMeaning;
  }

  lemma MemberLength(m: MemberText)
    ensures |MemberBytes(m)| ==
      |m.before| + |CharsBytes(m.name)| + |m.afterName| + |m.beforeValue| + |TextBytes(m.value)| + |m.after| + 3
  {
    hide TextBytes, CharsBytes;
  }

  /** The printed text is no longer than any other for the tree, whatever the blocks held. */
  lemma PrintIsShortest(w: nat, held: Held, t: Text)
    requires Valid(t) && PlainNumbers(t) && Printable(Meaning(t)) && Fits(w, Meaning(t))
    ensures |Print(w, held, Meaning(t))| <= |TextBytes(t)|
  {
    hide Print, TextBytes, TextOf, Meaning, Valid, PlainNumbers, Printable, Fits;
    ValidParts(t);
    PrintIsText(w, held, Meaning(t));
    TextIsShortest(t);
  }
}
