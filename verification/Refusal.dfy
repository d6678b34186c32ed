/**
 Where the parser refuses a text: what a text of the loose grammar looks like up to the byte where it cannot go on, and
 that the error pointer is there.
 */
module Refusal {
  import opened Bytes
  import opened Json
  import opened JsonParse
  import opened Grammar
  import opened Completeness
  import opened Soundness

  /** A value that breaks off: no value starts, or the value is an array or an object that breaks off inside. */
  datatype Broken = NoValue | BrokenArray(items: BrokenItems) | BrokenObject(members: BrokenMembers)

  datatype BrokenItems =
    | NoItem(before: seq<byte>, value: Broken)
    | NoItemEnd(item: Item)
    | ItemThen(item: Item, rest: BrokenItems)

  datatype BrokenMembers =
    | NoName(before: seq<byte>)
    | NoColon(before: seq<byte>, name: Text, afterName: seq<byte>)
    | NoMemberValue(head: MemberText, value: Broken)
    | NoMemberEnd(member: MemberText)
    | MemberThen(member: MemberText, rest: BrokenMembers)

  /** The text ends at the index, or goes on with a byte that is no blank. */
  predicate Stops(s: seq<byte>, at: nat) { at == |s| || (at < |s| && s[at] > 32) }

  /** From i on stands what breaks off at the index: there is no value, and at the start of an array no end either. */
  ghost predicate Breaks(s: seq<byte>, i: nat, b: Broken, at: nat)
    decreases b
  {
    match b
    case NoValue => i <= |s| && at == i && !StartsValue(s, i)
    case BrokenArray(items) =>
      && Occurs(s, i, [LBRACKET]) && BreaksItems(s, i + 1, items, at)
      && (items.NoItem? && items.value.NoValue? ==> !Occurs(s, at, [RBRACKET]))
    case BrokenObject(members) =>
      && Occurs(s, i, [LBRACE]) && BreaksMembers(s, i + 1, members, at)
      && (members.NoName? ==> !Occurs(s, at, [RBRACE]))
  }

  /** Items with commas behind them, and then one that breaks off, or behind which there is no comma and no end. */
  ghost predicate BreaksItems(s: seq<byte>, i: nat, b: BrokenItems, at: nat)
    decreases b
  {
    match b
    case NoItem(before, value) =>
      && LooseBlanks(before) && Occurs(s, i, before) && Breaks(s, i + |before|, value, at)
      && (value.NoValue? ==> Stops(s, at))
    case NoItemEnd(e) =>
      && LooseBlanks(e.before) && Loose(e.value) && LooseBlanks(e.after)
      && Occurs(s, i, ItemBytes(e)) && at == i + |ItemBytes(e)| && Stops(s, at)
      && Stands(s, i + |e.before|, e.value, i + |e.before| + |TextBytes(e.value)|)
      && !Occurs(s, at, [COMMA]) && !Occurs(s, at, [RBRACKET])
    case ItemThen(e, rest) =>
      LooseItem(e) && Occurs(s, i, ItemBytes(e) + [COMMA]) && BreaksItems(s, i + |ItemBytes(e)| + 1, rest, at)
  }

  /** The same for members, in which a name and a colon have to stand as well. */
  ghost predicate BreaksMembers(s: seq<byte>, i: nat, b: BrokenMembers, at: nat)
    decreases b
  {
    match b
    case NoName(before) =>
      LooseBlanks(before) && Occurs(s, i, before) && at == i + |before| && Stops(s, at) && !Occurs(s, at, [QUOTE])
    case NoColon(before, name, afterName) =>
      && LooseBlanks(before) && Occurs(s, i, before) && (name.StrText? || name.OpenText?) && Loose(name)
      && Stands(s, i + |before|, name, i + |before| + |TextBytes(name)|)
      && LooseBlanks(afterName) && Occurs(s, i + |before| + |TextBytes(name)|, afterName)
      && at == i + |before| + |TextBytes(name)| + |afterName| && Stops(s, at) && !Occurs(s, at, [COLON])
    case NoMemberValue(head, value) =>
      && LooseName(head) && Occurs(s, i, NameBytes(head)) && Breaks(s, i + |NameBytes(head)|, value, at)
      && (value.NoValue? ==> Stops(s, at)) && Stops(s, i + |NameBytes(head)|)
    case NoMemberEnd(m) =>
      && LooseName(m) && Loose(m.value) && LooseBlanks(m.after)
      && Occurs(s, i, MemberBytes(m)) && at == i + |MemberBytes(m)| && Stops(s, at)
      && Stands(s, i + |NameBytes(m)|, m.value, i + |NameBytes(m)| + |TextBytes(m.value)|)
      && !Occurs(s, at, [COMMA]) && !Occurs(s, at, [RBRACE])
    case MemberThen(m, rest) =>
      LooseMember(m) && Occurs(s, i, MemberBytes(m) + [COMMA]) && BreaksMembers(s, i + |MemberBytes(m)| + 1, rest, at)
  }

  lemma NotByteAt(s: seq<byte>, i: nat, b: byte)
    requires i <= |s| && b != 0
    ensures Occurs(s, i, [b]) <==> At(s, i) == b
  {
    if i < |s| { assert s[i..i + 1] == [s[i]]; }
  }

  lemma SkipStops(s: seq<byte>, i: nat)
    requires i <= |s|
    ensures Stops(s, Skip(s, i))
  {
  }

  // ---------- a refused text breaks off at the error pointer ----------

  /** Neither literals nor strings nor numbers are refused once they have started. */
  lemma OnlyNested(s: seq<byte>, i: nat)
    requires i <= |s| && ParseValue(s, i).Fail?
    ensures !StartsValue(s, i) || At(s, i) == LBRACKET || At(s, i) == LBRACE
  {
    hide ParseItems, ParseMembers, ParseNumber, InBounds, SecondPass;
  }

  lemma {:induction false} ValueRefused(s: seq<byte>, i: nat) returns (b: Broken)
    requires i <= |s| && ParseValue(s, i).Fail?
    ensures Breaks(s, i, b, ParseValue(s, i).at)
    decreases |s| - i, 1
  {
    hide ParseValue, ParseItems, ParseMembers, Skip, StartsValue, Occurs;
    NoValueAt(s, i);
    OnlyNested(s, i);
    if !StartsValue(s, i) {
      b := NoValue;
    } else if At(s, i) == LBRACKET {
      ArrayAt(s, i);
      NotByteAt(s, i, LBRACKET);
      var items := ItemsRefused(s, i + 1);
      NotByteAt(s, Skip(s, i + 1), RBRACKET);
      b := BrokenArray(items);
    } else {
      ObjectAt(s, i);
      NotByteAt(s, i, LBRACE);
      var members := MembersRefused(s, i + 1);
      NotByteAt(s, Skip(s, i + 1), RBRACE);
      b := BrokenObject(members);
    }
  }

  lemma {:induction false} ItemsRefused(s: seq<byte>, i: nat) returns (b: BrokenItems)
    requires i <= |s| && ParseItems(s, i).Fail?
    ensures BreaksItems(s, i, b, ParseItems(s, i).at)
    ensures b.NoItem? && b.value.NoValue? ==> ParseItems(s, i).at == Skip(s, i)
    decreases |s| - i, 2
  {
    hide ParseValue, Skip, StartsValue, Occurs, LooseBlanks, ItemBytes, TextBytes, Loose, Stands;
    var k := Skip(s, i);
    SkippedBlanks(s, i);
    SkipStops(s, i);
    var p := ParseValue(s, k);
    if p.Fail? {
      var value := ValueRefused(s, k);
      b := NoItem(s[i..k], value);
    } else {
      var t := ValueSound(s, k);
      var e := ItemAt(s, i, t, p.next);
      StandsThere(s, k, t, p.next);
      OpenIsLast(s, k, t, p.next);
      var j := Skip(s, p.next);
      SkipStops(s, p.next);
      NotByteAt(s, j, COMMA);
      NotByteAt(s, j, RBRACKET);
      if At(s, j) == COMMA {
        var rest := ItemsRefused(s, j + 1);
        OccursSplit(s, i, ItemBytes(e), [COMMA]);
        b := ItemThen(e, rest);
      } else {
        b := NoItemEnd(e);
      }
    }
  }

  lemma NameIsRead(s: seq<byte>, k: nat) returns (name: Text)
    requires k <= |s| && ParseString(s, k).Done?
    ensures (name.StrText? || name.OpenText?) && Loose(name) && Stands(s, k, name, ParseString(s, k).next)
  {
    hide ParseString, Occurs, CharsBytes, LooseChars;
    var cs, open := StringSound(s, k);
    name := if open then OpenText(cs) else StrText(cs);
  }

  lemma {:induction false} MembersRefused(s: seq<byte>, i: nat) returns (b: BrokenMembers)
    requires i <= |s| && ParseMembers(s, i).Fail?
    ensures BreaksMembers(s, i, b, ParseMembers(s, i).at)
    ensures b.NoName? ==> ParseMembers(s, i).at == Skip(s, i)
    decreases |s| - i, 3
  {
    hide ParseMember, Skip, Occurs, LooseBlanks, MemberBytes, NameBytes, TextBytes, Loose, Stands, LooseChars;
    var p := ParseMember(s, i);
    if p.Fail? {
      b := MemberRefused(s, i);
    } else {
      var m := MemberSound(s, i);
      StandsThere(s, i + |NameBytes(m)|, m.value, p.next);
      OpenIsLast(s, i + |NameBytes(m)|, m.value, p.next);
      var j := Skip(s, p.next);
      SkipStops(s, p.next);
      NotByteAt(s, j, COMMA);
      NotByteAt(s, j, RBRACE);
      if At(s, j) == COMMA {
        var rest := MembersRefused(s, j + 1);
        OccursSplit(s, i, MemberBytes(m), [COMMA]);
        b := MemberThen(m, rest);
      } else {
        b := NoMemberEnd(m);
      }
    }
  }

  lemma {:induction false} MemberRefused(s: seq<byte>, i: nat) returns (b: BrokenMembers)
    requires i <= |s| && ParseMember(s, i).Fail?
    ensures BreaksMembers(s, i, b, ParseMember(s, i).at)
    ensures b.NoName? ==> ParseMember(s, i).at == Skip(s, i)
    decreases |s| - i, 2
  {
    hide ParseValue, ParseString, Skip, Occurs, LooseBlanks, NameBytes, TextBytes, Loose, Stands, LooseChars;
    var k := Skip(s, i);
    SkippedBlanks(s, i);
    SkipStops(s, i);
    var p := ParseString(s, k);
    if p.Fail? {
      NameNotThere(s, k);
      b := NoName(s[i..k]);
    } else {
      var name := NameIsRead(s, k);
      StandsThere(s, k, name, p.next);
      var j := Skip(s, p.next);
      SkippedBlanks(s, p.next);
      SkipStops(s, p.next);
      NotByteAt(s, j, COLON);
      if At(s, j) != COLON {
        b := NoColon(s[i..k], name, s[p.next..j]);
      } else {
        var head := NameSound(s, i);
        SkipStops(s, j + 1);
        var value := ValueRefused(s, Skip(s, j + 1));
        b := NoMemberValue(head, value);
      }
    }
  }

  lemma NameNotThere(s: seq<byte>, k: nat)
    requires k <= |s| && ParseString(s, k).Fail?
    ensures ParseString(s, k) == Fail(k) && !Occurs(s, k, [QUOTE])
  {
    hide InBounds, SecondPass;
    NotByteAt(s, k, QUOTE);
  }

  // ---------- a text that breaks off is refused there ----------

  /** The outcome of parsing what breaks off: the error pointer, unless C leaves the parse undefined. */
  predicate Refuses<T(==)>(p: Parsed<T>, at: nat) { p == Fail(at) || p.OutOfBounds? }

  lemma BlanksBefore(s: seq<byte>, i: nat, w: seq<byte>)
    requires LooseBlanks(w) && Occurs(s, i, w) && Stops(s, i + |w|)
    ensures Skip(s, i) == i + |w|
  {
    SkipBlanks(s, i, w);
  }

  lemma BreaksAfterStart(s: seq<byte>, i: nat, b: Broken, at: nat)
    requires Breaks(s, i, b, at) && !b.NoValue?
    ensures i < |s| && s[i] > 32 && s[i] != RBRACKET && s[i] != RBRACE
  {
    hide BreaksItems, BreaksMembers;
    if b.BrokenArray? { OccursAt(s, i, [LBRACKET], 0); } else { OccursAt(s, i, [LBRACE], 0); }
  }

  lemma {:induction false} BrokenIsRefused(s: seq<byte>, i: nat, b: Broken, at: nat)
    requires i <= |s| && Breaks(s, i, b, at)
    ensures Refuses(ParseValue(s, i), at)
    decreases b
  {
    hide ParseValue, ParseItems, ParseMembers, Skip, StartsValue, Occurs, BreaksItems, BreaksMembers;
    match b
    case NoValue =>
      NoValueAt(s, i);
    case BrokenArray(items) =>
      OccursAt(s, i, [LBRACKET], 0);
      ArrayAt(s, i);
      ItemsAreRefused(s, i + 1, items, at);
    case BrokenObject(members) =>
      OccursAt(s, i, [LBRACE], 0);
      ObjectAt(s, i);
      MembersAreRefused(s, i + 1, members, at);
  }

  lemma {:induction false} ItemsAreRefused(s: seq<byte>, i: nat, b: BrokenItems, at: nat)
    requires i <= |s| && BreaksItems(s, i, b, at)
    ensures Refuses(ParseItems(s, i), at)
    ensures At(s, Skip(s, i)) == RBRACKET ==> b.NoItem? && b.value.NoValue? && Occurs(s, at, [RBRACKET])
    decreases b
  {
    hide ParseValue, Skip, StartsValue, Occurs, LooseBlanks, ItemBytes, TextBytes, Loose, Stands, Breaks, Meaning;
    hide WellEscaped;
    match b
    case NoItem(before, value) =>
      ValueBreaks(s, i, before, value, at);
      BrokenIsRefused(s, i + |before|, value, at);
    case NoItemEnd(e) =>
      var v := ItemIsRead(s, i, e, at);
      NotByteAt(s, at, COMMA);
      NotByteAt(s, at, RBRACKET);
    case ItemThen(e, rest) =>
      OccursSplit(s, i, ItemBytes(e), [COMMA]);
      OccursAt(s, i + |ItemBytes(e)|, [COMMA], 0);
      ItemStands(s, i, e);
      var v := ItemIsRead(s, i, e, i + |ItemBytes(e)|);
      ItemsAreRefused(s, i + |ItemBytes(e)| + 1, rest, at);
  }

  lemma ValueBreaks(s: seq<byte>, i: nat, before: seq<byte>, value: Broken, at: nat)
    requires LooseBlanks(before) && Occurs(s, i, before) && Breaks(s, i + |before|, value, at)
    requires value.NoValue? ==> Stops(s, at)
    ensures Skip(s, i) == i + |before| && i + |before| <= |s|
    ensures At(s, i + |before|) == RBRACKET ==> value.NoValue? && Occurs(s, at, [RBRACKET])
  {
    hide BreaksItems, BreaksMembers, Skip, LooseBlanks;
    if !value.NoValue? {
      BreaksAfterStart(s, i + |before|, value, at);
    } else {
      NotByteAt(s, at, RBRACKET);
    }
    BlanksBefore(s, i, before);
  }

  /** An item inside a text stands there, because of what follows. */
  lemma ItemStands(s: seq<byte>, i: nat, e: Item)
    requires LooseItem(e) && Occurs(s, i, ItemBytes(e)) && i + |ItemBytes(e)| < |s| && s[i + |ItemBytes(e)|] == COMMA
    ensures Stands(s, i + |e.before|, e.value, i + |e.before| + |TextBytes(e.value)|)
  {
    hide TextBytes, Loose, Longest, Occurs;
    var k := i + |e.before|;
    OccursSplit(s, i, e.before, TextBytes(e.value) + e.after);
    OccursSplit(s, k, TextBytes(e.value), e.after);
    if e.after != [] { OccursAt(s, k + |TextBytes(e.value)|, e.after, 0); }
    FollowedStands(s, k, e.value, k + |TextBytes(e.value)|);
  }

  /** An item is read, to the byte behind it. */
  lemma ItemIsRead(s: seq<byte>, i: nat, e: Item, j: nat) returns (v: nat)
    requires i <= |s| && LooseBlanks(e.before) && Loose(e.value) && LooseBlanks(e.after)
    requires Occurs(s, i, ItemBytes(e)) && j == i + |ItemBytes(e)| && Stops(s, j)
    requires Stands(s, i + |e.before|, e.value, i + |e.before| + |TextBytes(e.value)|)
    ensures At(s, Skip(s, i)) != RBRACKET && v <= |s| && Skip(s, v) == j
    ensures ParseValue(s, Skip(s, i)) == Done(v, Meaning(e.value)) || ParseValue(s, Skip(s, i)).OutOfBounds?
  {
    hide TextBytes, Loose, Longest, Occurs, ParseValue, Meaning, Skip, LooseBlanks;
    var k := i + |e.before|;
    v := k + |TextBytes(e.value)|;
    OccursSplit(s, i, e.before, TextBytes(e.value) + e.after);
    OccursSplit(s, k, TextBytes(e.value), e.after);
    FirstByte(e.value);
    OccursAt(s, k, TextBytes(e.value), 0);
    NoByteOfBlank(e.value);
    BlanksBefore(s, i, e.before);
    BlanksBefore(s, v, e.after);
    LooseComplete(s, k, e.value, v);
  }

  lemma NoByteOfBlank(t: Text)
    requires Loose(t)
    ensures |TextBytes(t)| > 0
    ensures var b := TextBytes(t)[0]; b > 32 && b != RBRACKET && b != RBRACE
  {
    FirstByte(t);
  }

  lemma {:induction false} MembersAreRefused(s: seq<byte>, i: nat, b: BrokenMembers, at: nat)
    requires i <= |s| && BreaksMembers(s, i, b, at)
    ensures Refuses(ParseMembers(s, i), at)
    ensures At(s, Skip(s, i)) == RBRACE ==> b.NoName? && Occurs(s, at, [RBRACE])
    decreases b
  {
    hide ParseMember, ParseMembers, Skip, Occurs, LooseBlanks, MemberBytes, TextBytes, Loose, Stands, Breaks;
    hide NameBytes, LooseChars, StartsValue, Refuses;
    match b
    case NoName(before) =>
      BlanksBefore(s, i, before);
      NotByteAt(s, at, QUOTE);
      NotByteAt(s, at, RBRACE);
      NoNameThere(s, i);
      MemberFails(s, i, at);
    case NoColon(before, name, afterName) =>
      ColonMissing(s, i, before, name, afterName, at);
      MemberFails(s, i, at);
    case NoMemberValue(head, value) =>
      BrokenIsRefused(s, i + |NameBytes(head)|, value, at);
      ValueIsRefused(s, i, head, at);
      MemberFails(s, i, at);
    case NoMemberEnd(m) =>
      var v := MemberIsRead(s, i, m, at);
      NotByteAt(s, at, COMMA);
      NotByteAt(s, at, RBRACE);
      MemberEnds(s, i, v, at);
    case MemberThen(m, rest) =>
      OccursSplit(s, i, MemberBytes(m), [COMMA]);
      OccursAt(s, i + |MemberBytes(m)|, [COMMA], 0);
      MemberStands(s, i, m);
      var v := MemberIsRead(s, i, m, i + |MemberBytes(m)|);
      MembersAreRefused(s, i + |MemberBytes(m)| + 1, rest, at);
      MemberGoesOn(s, i, v, i + |MemberBytes(m)|, at);
  }

  lemma MemberFails(s: seq<byte>, i: nat, at: nat)
    requires i <= |s| && Refuses(ParseMember(s, i), at)
    ensures Refuses(ParseMembers(s, i), at)
  {
    hide ParseMember, Skip;
  }

  lemma MemberEnds(s: seq<byte>, i: nat, v: nat, at: nat)
    requires i <= |s| && v <= |s| && Skip(s, v) == at && At(s, at) != COMMA && At(s, at) != RBRACE
    requires ParseMember(s, i).OutOfBounds? || (ParseMember(s, i).Done? && ParseMember(s, i).next == v)
    ensures Refuses(ParseMembers(s, i), at)
  {
    hide ParseMember, Skip;
  }

  lemma MemberGoesOn(s: seq<byte>, i: nat, v: nat, j: nat, at: nat)
    requires i <= |s| && v <= |s| && Skip(s, v) == j < |s| && At(s, j) == COMMA
    requires ParseMember(s, i).OutOfBounds? || (ParseMember(s, i).Done? && ParseMember(s, i).next == v)
    requires Refuses(ParseMembers(s, j + 1), at)
    ensures Refuses(ParseMembers(s, i), at)
  {
    hide ParseMember, Skip;
  }

  /** Where the value of a member is refused, the member is. */
  lemma ValueIsRefused(s: seq<byte>, i: nat, head: MemberText, at: nat)
    requires i <= |s| && LooseName(head) && Occurs(s, i, NameBytes(head)) && Stops(s, i + |NameBytes(head)|)
    requires Refuses(ParseValue(s, i + |NameBytes(head)|), at)
    ensures Refuses(ParseMember(s, i), at) && At(s, Skip(s, i)) != RBRACE
  {
    hide ParseMember, ParseValue, ParseString, Skip, Occurs, NameBytes, LooseName, CharsMeaning;
    var n := NameIsTaken(s, i, head);
    MemberFromValue(s, i, n);
  }

  lemma NoNameThere(s: seq<byte>, i: nat)
    requires i <= |s| && At(s, Skip(s, i)) != QUOTE
    ensures Refuses(ParseMember(s, i), Skip(s, i))
  {
    hide ParseValue, Skip, InBounds, SecondPass;
  }

  lemma ColonMissing(s: seq<byte>, i: nat, before: seq<byte>, name: Text, afterName: seq<byte>, at: nat)
    requires LooseBlanks(before) && Occurs(s, i, before) && (name.StrText? || name.OpenText?) && Loose(name)
    requires Stands(s, i + |before|, name, i + |before| + |TextBytes(name)|)
    requires LooseBlanks(afterName) && Occurs(s, i + |before| + |TextBytes(name)|, afterName)
    requires at == i + |before| + |TextBytes(name)| + |afterName| && Stops(s, at) && !Occurs(s, at, [COLON])
    ensures i <= |s| && Refuses(ParseMember(s, i), at) && At(s, Skip(s, i)) != RBRACE
  {
    hide ParseValue, ParseString, Skip, Occurs, LooseBlanks, TextBytes, Loose, Stands;
    var k := i + |before|;
    NameStands(s, k, name, k + |TextBytes(name)|);
    BlanksBefore(s, i, before);
    BlanksBefore(s, k + |TextBytes(name)|, afterName);
    NotByteAt(s, at, COLON);
  }

  /** A string is read where a name stands. */
  lemma NameStands(s: seq<byte>, k: nat, name: Text, n: nat)
    requires (name.StrText? || name.OpenText?) && Loose(name) && Stands(s, k, name, n)
    ensures k < n <= |s| && s[k] == QUOTE
    ensures ParseString(s, k).OutOfBounds? || (ParseString(s, k).Done? && ParseString(s, k).next == n)
  {
    hide ParseString, Occurs, CharsBytes, LooseChars, CharsMeaning, Longest;
    OccursAt(s, k, TextBytes(name), 0);
    OccursSlice(s, k, TextBytes(name));
    if name.OpenText? {
      OpenStringComplete(s, k, name.chars);
    } else {
      StringComplete(s, k, name.chars, n);
    }
  }

  /** A name with its colon is read, to the first byte of the value. */
  lemma NameIsTaken(s: seq<byte>, i: nat, m: MemberText) returns (n: nat)
    requires i <= |s| && LooseName(m) && Occurs(s, i, NameBytes(m)) && Stops(s, i + |NameBytes(m)|)
    ensures At(s, Skip(s, i)) != RBRACE
    ensures ParseString(s, Skip(s, i)).OutOfBounds? || ParseString(s, Skip(s, i)) == Done(n, CharsMeaning(m.name))
    ensures n <= |s| && At(s, Skip(s, n)) == COLON && Skip(s, Skip(s, n) + 1) == i + |NameBytes(m)|
  {
    hide ParseString, Skip, Occurs, LooseBlanks, CharsBytes, LooseChars, CharsMeaning;
    var k, c;
    k, n, c := NameParts(s, i, m);
    BlanksBefore(s, i, m.before);
    StringComplete(s, k, m.name, n);
    BlanksBefore(s, n, m.afterName);
    BlanksBefore(s, c + 1, m.beforeValue);
  }

  lemma MemberFromValue(s: seq<byte>, i: nat, n: nat)
    requires i <= |s| && n <= |s| && At(s, Skip(s, n)) == COLON
    requires var p := ParseString(s, Skip(s, i)); p.OutOfBounds? || (p.Done? && p.next == n)
    ensures var p := ParseValue(s, Skip(s, Skip(s, n) + 1));
      ParseMember(s, i).OutOfBounds? || (p.Done? ==> ParseMember(s, i).Done? && ParseMember(s, i).next == p.next)
    ensures var p := ParseValue(s, Skip(s, Skip(s, n) + 1));
      p.Fail? ==> ParseMember(s, i).OutOfBounds? || ParseMember(s, i) == Fail(p.at)
    ensures ParseValue(s, Skip(s, Skip(s, n) + 1)).OutOfBounds? ==> ParseMember(s, i).OutOfBounds?
  {
    hide ParseValue, ParseString, Skip;
  }

  /** A member inside a text stands there, because of what follows. */
  lemma MemberStands(s: seq<byte>, i: nat, m: MemberText)
    requires LooseMember(m) && Occurs(s, i, MemberBytes(m))
    requires i + |MemberBytes(m)| < |s| && s[i + |MemberBytes(m)|] == COMMA
    ensures Stands(s, i + |NameBytes(m)|, m.value, i + |NameBytes(m)| + |TextBytes(m.value)|)
  {
    hide TextBytes, NameBytes, Loose, Longest, Occurs;
    var k := i + |NameBytes(m)|;
    OccursSplit(s, i, NameBytes(m), TextBytes(m.value) + m.after);
    OccursSplit(s, k, TextBytes(m.value), m.after);
    if m.after != [] { OccursAt(s, k + |TextBytes(m.value)|, m.after, 0); }
    FollowedStands(s, k, m.value, k + |TextBytes(m.value)|);
  }

  /** A member is read, to the byte behind it. */
  lemma MemberIsRead(s: seq<byte>, i: nat, m: MemberText, j: nat) returns (v: nat)
    requires i <= |s| && LooseName(m) && Loose(m.value) && LooseBlanks(m.after)
    requires Occurs(s, i, MemberBytes(m)) && j == i + |MemberBytes(m)| && Stops(s, j)
    requires Stands(s, i + |NameBytes(m)|, m.value, i + |NameBytes(m)| + |TextBytes(m.value)|)
    ensures At(s, Skip(s, i)) != RBRACE && v <= |s| && Skip(s, v) == j
    ensures ParseMember(s, i).OutOfBounds? || (ParseMember(s, i).Done? && ParseMember(s, i).next == v)
  {
    hide TextBytes, NameBytes, Loose, Longest, Occurs, ParseValue, ParseMember, Meaning, Skip, LooseBlanks, LooseChars;
    hide ParseString, CharsMeaning;
    var k := i + |NameBytes(m)|;
    v := k + |TextBytes(m.value)|;
    OccursSplit(s, i, NameBytes(m), TextBytes(m.value) + m.after);
    OccursSplit(s, k, TextBytes(m.value), m.after);
    NoByteOfBlank(m.value);
    OccursAt(s, k, TextBytes(m.value), 0);
    var n := NameIsTaken(s, i, m);
    BlanksBefore(s, v, m.after);
    LooseComplete(s, k, m.value, v);
    MemberFromValue(s, i, n);
  }

  // ---------- the error pointer ----------

  /** The parser refuses a value at some index if and only if the text breaks off there. */
  lemma RefusesExactly(s: seq<byte>, i: nat, at: nat)
    requires i <= |s| && !ParseValue(s, i).OutOfBounds?
    ensures ParseValue(s, i) == Fail(at) <==> exists b: Broken :: Breaks(s, i, b, at)
  {
    hide ParseValue, Breaks;
    if ParseValue(s, i) == Fail(at) {
      var b := ValueRefused(s, i);
    }
    if b: Broken :| Breaks(s, i, b, at) {
      BrokenIsRefused(s, i, b, at);
    }
  }

  /** A whole text breaks off at the index: in its value, or because it goes on behind that. */
  ghost predicate TextBreaks(s: seq<byte>, at: nat) {
    || (exists before, b: Broken :: BreaksFrom(s, before, b, at))
    || (exists before, t: Text, after :: GoesOn(s, before, t, after, at))
  }

  ghost predicate BreaksFrom(s: seq<byte>, before: seq<byte>, b: Broken, at: nat) {
    LooseBlanks(before) && Occurs(s, 0, before) && Breaks(s, |before|, b, at) && (b.NoValue? ==> Stops(s, at))
  }

  ghost predicate GoesOn(s: seq<byte>, before: seq<byte>, t: Text, after: seq<byte>, at: nat) {
    && LooseBlanks(before) && Loose(t) && LooseBlanks(after) && Occurs(s, 0, before)
    && Stands(s, |before|, t, |before| + |TextBytes(t)|) && Occurs(s, |before| + |TextBytes(t)|, after)
    && at == |before| + |TextBytes(t)| + |after| && at < |s| && Stops(s, at)
  }

  /** With the demand for a terminator, a text is refused at some index if and only if it breaks off there. */
  lemma TextsRefusedExactly(s: seq<byte>, at: nat)
    requires !ParseText(s, true).OutOfBounds?
    ensures ParseText(s, true) == Fail(at) <==> TextBreaks(s, at)
  {
    hide ParseValue, Breaks, GoesOn, BreaksFrom;
    if ParseText(s, true) == Fail(at) {
      TextIsBroken(s, at);
    }
    if before, b: Broken :| BreaksFrom(s, before, b, at) {
      BrokenText(s, before, b, at);
    }
    if before, t: Text, after :| GoesOn(s, before, t, after, at) {
      LongText(s, before, t, after, at);
    }
  }

  lemma TextIsBroken(s: seq<byte>, at: nat)
    requires ParseText(s, true) == Fail(at)
    ensures TextBreaks(s, at)
  {
    hide ParseValue, Breaks, Loose, LooseBlanks, Longest, TextBytes, Skip, Occurs;
    var k := Skip(s, 0);
    SkippedBlanks(s, 0);
    SkipStops(s, 0);
    var p := ParseValue(s, k);
    if p.Fail? {
      var b := ValueRefused(s, k);
      NoValueIsThere(s, k, b, at);
      assert BreaksFrom(s, s[0..k], b, at);
    } else {
      var t := ValueSound(s, k);
      SkippedBlanks(s, p.next);
      SkipStops(s, p.next);
      assert GoesOn(s, s[0..k], t, s[p.next..at], at);
    }
  }

  lemma NoValueIsThere(s: seq<byte>, i: nat, b: Broken, at: nat)
    requires Breaks(s, i, b, at)
    ensures b.NoValue? ==> at == i
  {
    hide BreaksItems, BreaksMembers;
  }

  lemma BrokenText(s: seq<byte>, before: seq<byte>, b: Broken, at: nat)
    requires BreaksFrom(s, before, b, at)
    ensures Refuses(ParseText(s, true), at)
  {
    hide ParseValue, Breaks, LooseBlanks, Skip;
    if !b.NoValue? {
      BreaksAfterStart(s, |before|, b, at);
    } else {
      NoValueIsThere(s, |before|, b, at);
    }
    BlanksBefore(s, 0, before);
    BrokenIsRefused(s, |before|, b, at);
  }

  lemma LongText(s: seq<byte>, before: seq<byte>, t: Text, after: seq<byte>, at: nat)
    requires GoesOn(s, before, t, after, at)
    ensures Refuses(ParseText(s, true), at)
  {
    hide ParseValue, LooseBlanks, Skip, Loose, Longest, TextBytes, Occurs, Meaning;
    NoByteOfBlank(t);
    OccursAt(s, |before|, TextBytes(t), 0);
    BlanksBefore(s, 0, before);
    BlanksBefore(s, |before| + |TextBytes(t)|, after);
    LooseComplete(s, |before|, t, |before| + |TextBytes(t)|);
  }

  /** The object {"L1"5}, with no colon behind its name. */
  const NO_COLON: seq<byte> := [LBRACE, QUOTE, 0x4C, 0x31, QUOTE, 0x35, RBRACE]

  /** It is refused, at the byte where the colon is missing. */
  lemma MissingColon()
    ensures ParseText(NO_COLON, false) == Fail(5)
  {
    hide ParseValue, Breaks;
    var b := BrokenObject(NoColon([], StrText([Raw(0x4C), Raw(0x31)]), []));
    assert Skip(NO_COLON, 0) == 0;
    NoColonBreaks(b);
    BrokenIsRefused(NO_COLON, 0, b, 5);
    NoColonIsComplete();
    CompleteEscapesSuffice(NO_COLON, 0);
  }

  lemma NoColonBreaks(b: Broken)
    requires b == BrokenObject(NoColon([], StrText([Raw(0x4C), Raw(0x31)]), []))
    ensures Breaks(NO_COLON, 0, b, 5)
  {
    var s, cs := NO_COLON, [Raw(0x4C), Raw(0x31)];
    assert cs[1..] == [Raw(0x31)] && CharsBytes(cs[1..]) == [0x31];
    assert StringBytes(cs) == [QUOTE, 0x4C, 0x31, QUOTE] == s[1..5];
    assert Stands(s, 1, StrText(cs), 5) && s[5..6] == [0x35] && s[0..1] == [LBRACE];
    assert BreaksMembers(s, 1, b.members, 5);
  }

  lemma NoColonIsComplete()
    ensures EscapesComplete(NO_COLON)
  {
    var s := NO_COLON;
    assert BodyComplete(s, 7) && BodyComplete(s, 6) && BodyComplete(s, 5);
    assert BodyComplete(s, 4) && BodyComplete(s, 3) && BodyComplete(s, 2);
  }
}
