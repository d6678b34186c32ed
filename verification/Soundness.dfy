/**
 What the parser accepts are the texts of the loose grammar, and nothing else; and where it refuses a text, what stands
 before is the beginning of one that cannot go on there.
 */
module Soundness {
  import opened Bytes
  import opened Unicode
  import opened Json
  import opened JsonParse
  import opened Grammar
  import opened Completeness

  lemma SkippedBlanks(s: seq<byte>, i: nat)
    requires i <= |s|
    ensures LooseBlanks(s[i..Skip(s, i)]) && Occurs(s, i, s[i..Skip(s, i)])
  {
  }

  lemma ByteAt(s: seq<byte>, i: nat, b: byte)
    requires i < |s| && s[i] == b
    ensures Occurs(s, i, [b])
  {
    assert s[i..i + 1] == [b];
  }

  // ---------- strings ----------

  /** How far one step of the second pass goes. */
  lemma StepEnds(s: seq<byte>, i: nat)
    requires i < |s| && s[i] != QUOTE && DecodeStep(s, i).Some?
    ensures var next := DecodeStep(s, i).value.0;
      if s[i] != BACKSLASH then next == i + 1
      else
        i + 1 < |s| &&
        if s[i + 1] != LETTER_U then next == i + 2
        else next == i + 6 || (next == i + 12 && s[i + 6] == BACKSLASH && s[i + 7] == LETTER_U)
  {
    hide HexValue, PairBytes, Utf8;
  }

  lemma UnitStands(s: seq<byte>, i: nat)
    requires i + 6 <= |s| && s[i] == BACKSLASH && s[i + 1] == LETTER_U
    ensures Occurs(s, i, CharBytes(Unit(s[i + 2..i + 6])))
  {
    assert s[i..i + 6] == [BACKSLASH, LETTER_U] + s[i + 2..i + 6];
  }

  lemma OneChar(c: StrChar)
    ensures CharsBytes([c]) == CharBytes(c)
  {
  }

  /** What the second pass takes for one character, or two when it joins them into a pair. */
  lemma StepChars(s: seq<byte>, i: nat) returns (cs: seq<StrChar>)
    requires i < |s| && s[i] != QUOTE && DecodeStep(s, i).Some?
    ensures LooseChars(cs) && Occurs(s, i, CharsBytes(cs)) && i + |CharsBytes(cs)| == DecodeStep(s, i).value.0
  {
    hide DecodeStep, CharsBytes;
    StepEnds(s, i);
    var next := DecodeStep(s, i).value.0;
    if s[i] != BACKSLASH {
      cs := [Raw(s[i])];
      OneChar(Raw(s[i]));
    } else if s[i + 1] != LETTER_U {
      cs := [Escape(s[i + 1])];
      OneChar(Escape(s[i + 1]));
      assert s[i..i + 2] == [BACKSLASH, s[i + 1]];
    } else {
      var first := Unit(s[i + 2..i + 6]);
      UnitStands(s, i);
      OneChar(first);
      cs := [first];
      if next == i + 12 {
        var second := Unit(s[i + 8..i + 12]);
        UnitStands(s, i + 6);
        OneChar(second);
        CharsJoin([first], [second]);
        OccursSplit(s, i, CharBytes(first), CharBytes(second));
        cs := [first] + [second];
      }
    }
  }

  lemma {:induction false} CharsJoin(a: seq<StrChar>, b: seq<StrChar>)
    ensures CharsBytes(a + b) == CharsBytes(a) + CharsBytes(b)
  {
    hide CharBytes;
    if a == [] {
      assert a + b == b;
    } else {
      CharsJoin(a[1..], b);
      assert (a + b)[1..] == a[1..] + b;
    }
  }

  /** What the second pass goes through are characters of a string. */
  lemma {:induction false} CharsSound(s: seq<byte>, i: nat) returns (cs: seq<StrChar>)
    requires i <= |s| && SecondPass(s, i).Some?
    ensures LooseChars(cs) && Occurs(s, i, CharsBytes(cs)) && i + |CharsBytes(cs)| == SecondPass(s, i).value.0
    decreases |s| - i
  {
    hide DecodeStep, CharsBytes, Occurs;
    cs := [];
    if BodyEnds(s, i) {
      NoChars(s, i);
    } else {
      var first := StepChars(s, i);
      var next := DecodeStep(s, i).value.0;
      var rest := CharsSound(s, next);
      CharsJoin(first, rest);
      OccursSplit(s, i, CharsBytes(first), CharsBytes(rest));
      cs := first + rest;
    }
  }

  lemma NoChars(s: seq<byte>, i: nat)
    requires i <= |s|
    ensures CharsBytes([]) == [] && Occurs(s, i, CharsBytes([]))
  {
  }

  /** A string that is read stands in the text, and lacks its closing quotation mark only at the end. */
  lemma StringSound(s: seq<byte>, i: nat) returns (cs: seq<StrChar>, open: bool)
    requires i <= |s| && ParseString(s, i).Done?
    ensures LooseChars(cs) && i < |s| && s[i] == QUOTE
    ensures var next := ParseString(s, i).next;
      if open then Occurs(s, i, TextBytes(OpenText(cs))) && next == |s| == i + |TextBytes(OpenText(cs))|
      else Occurs(s, i, StringBytes(cs)) && next == i + |StringBytes(cs)|
  {
    hide SecondPass, FirstPass, CharsBytes, Occurs;
    cs := CharsSound(s, i + 1);
    var end := SecondPass(s, i + 1).value.0;
    ByteAt(s, i, QUOTE);
    open := end == |s|;
    if open {
      OccursSplit(s, i, [QUOTE], CharsBytes(cs));
    } else {
      ByteAt(s, end, QUOTE);
      OccursSplit(s, i + 1, CharsBytes(cs), [QUOTE]);
      OccursSplit(s, i, [QUOTE], CharsBytes(cs) + [QUOTE]);
    }
  }

  // ---------- values ----------

  lemma NumberSound(s: seq<byte>, i: nat) returns (t: Text)
    requires i < |s| && (s[i] == MINUS || IsDigit(s[i]))
    ensures Loose(t) && Stands(s, i, t, ParseNumber(s, i).next)
  {
    hide ScannedText, ScanNumber, NumberBytes, LooseNumber, Longest, Occurs, NumberValue;
    ScannedIsNumber(s, i);
    ScannedIsLongest(s, i);
    t := NumText(ScannedText(s, i));
  }

  lemma LiteralSound(s: seq<byte>, i: nat) returns (t: Text)
    requires i <= |s| && (Occurs(s, i, NULL_TEXT) || Occurs(s, i, FALSE_TEXT) || Occurs(s, i, TRUE_TEXT))
    ensures Loose(t) && !t.OpenText? && ParseValue(s, i).Done? && Stands(s, i, t, ParseValue(s, i).next)
  {
    t := if Occurs(s, i, NULL_TEXT) then NullText else if Occurs(s, i, FALSE_TEXT) then FalseText else TrueText;
  }

  predicate IsLiteral(s: seq<byte>, i: nat) {
    Occurs(s, i, NULL_TEXT) || Occurs(s, i, FALSE_TEXT) || Occurs(s, i, TRUE_TEXT)
  }

  /** A value starts with a literal, or with a byte that tells its kind. */
  predicate StartsValue(s: seq<byte>, i: nat)
    requires i <= |s|
  {
    IsLiteral(s, i) || At(s, i) in [QUOTE, MINUS, LBRACKET, LBRACE] || IsDigit(At(s, i))
  }

  lemma NoValueAt(s: seq<byte>, i: nat)
    requires i <= |s|
    ensures StartsValue(s, i) || ParseValue(s, i) == Fail(i)
  {
    hide ParseItems, ParseMembers, ParseString, ParseNumber;
  }

  /** What is parsed to its end stands in the text as a value of the loose grammar. */
  lemma {:induction false} ValueSound(s: seq<byte>, i: nat) returns (t: Text)
    requires i <= |s| && ParseValue(s, i).Done?
    ensures Loose(t) && Stands(s, i, t, ParseValue(s, i).next)
    decreases |s| - i, 1
  {
    hide ParseValue, ParseItems, ParseMembers, ParseString, ParseNumber, Skip, Occurs, Longest, IsLiteral;
    NoValueAt(s, i);
    if IsLiteral(s, i) {
      t := LiteralIs(s, i);
    } else if At(s, i) == QUOTE {
      StringAt(s, i);
      var cs, open := StringSound(s, i);
      t := if open then OpenText(cs) else StrText(cs);
    } else if At(s, i) == LBRACKET {
      t := ArraySound(s, i);
    } else if At(s, i) == LBRACE {
      t := ObjectSound(s, i);
    } else {
      NumberAt(s, i);
      t := NumberSound(s, i);
    }
  }

  lemma LiteralIs(s: seq<byte>, i: nat) returns (t: Text)
    requires i <= |s| && IsLiteral(s, i)
    ensures Loose(t) && ParseValue(s, i).Done? && Stands(s, i, t, ParseValue(s, i).next)
  {
    hide ParseValue, Occurs;
    t := LiteralSound(s, i);
  }

  lemma {:induction false} ArraySound(s: seq<byte>, i: nat) returns (t: Text)
    requires i < |s| && s[i] == LBRACKET && ParseValue(s, i).Done?
    ensures Loose(t) && Stands(s, i, t, ParseValue(s, i).next) && t.ArrText?
    decreases |s| - i, 0
  {
    hide ParseValue, ParseItems, Skip, Occurs, ItemsBytes, LooseItem, LooseBlanks;
    ArrayAt(s, i);
    ByteAt(s, i, LBRACKET);
    var j := Skip(s, i + 1);
    if At(s, j) == RBRACKET {
      var blank := s[i + 1..j];
      SkippedBlanks(s, i + 1);
      ByteAt(s, j, RBRACKET);
      OccursSplit(s, i + 1, blank, [RBRACKET]);
      OccursSplit(s, i, [LBRACKET], blank + [RBRACKET]);
      t := ArrText(blank, []);
    } else {
      var items := ItemsSound(s, i + 1);
      assert [] + ItemsBytes(items) == ItemsBytes(items);
      OccursSplit(s, i, [LBRACKET], ItemsBytes(items));
      NoBlanks();
      t := ArrText([], items);
    }
  }

  lemma NoBlanks()
    ensures LooseBlanks([])
  {
  }

  /** What stands behind a value, before the byte at which it goes on. */
  lemma ItemAt(s: seq<byte>, i: nat, t: Text, v: nat) returns (e: Item)
    requires i <= |s| && Loose(t) && Stands(s, Skip(s, i), t, v) && v <= |s|
    ensures LooseBlanks(e.before) && e.value == t && LooseBlanks(e.after) && |e.before| == Skip(s, i) - i
    ensures Occurs(s, i, ItemBytes(e)) && i + |ItemBytes(e)| == Skip(s, v) && |e.after| == Skip(s, v) - v
  {
    hide Longest, TextBytes, Occurs, LooseBlanks;
    var k := Skip(s, i);
    e := Item(s[i..k], t, s[v..Skip(s, v)]);
    SkippedBlanks(s, i);
    SkippedBlanks(s, v);
    OccursSplit(s, k, TextBytes(t), e.after);
    OccursSplit(s, i, e.before, TextBytes(t) + e.after);
  }

  lemma {:induction false} ItemsSound(s: seq<byte>, i: nat) returns (items: seq<Item>)
    requires i <= |s| && ParseItems(s, i).Done?
    ensures |items| > 0 && forall k :: 0 <= k < |items| ==> LooseItem(items[k])
    ensures Occurs(s, i, ItemsBytes(items)) && ParseItems(s, i).next == i + |ItemsBytes(items)|
    decreases |s| - i, 2
  {
    hide ParseValue, Skip, Occurs, Loose, LooseBlanks, ItemBytes, TextBytes, Stands;
    var p := ParseValue(s, Skip(s, i));
    var t := ValueSound(s, Skip(s, i));
    var e := ItemAt(s, i, t, p.next);
    var j := Skip(s, p.next);
    OpenIsLast(s, Skip(s, i), t, p.next);
    if At(s, j) == COMMA {
      var rest := ItemsSound(s, j + 1);
      items := [e] + rest;
      assert items[1..] == rest;
      ByteAt(s, j, COMMA);
      OccursSplit(s, j, [COMMA], ItemsBytes(rest));
      OccursSplit(s, i, ItemBytes(e), [COMMA] + ItemsBytes(rest));
    } else {
      items := [e];
      ByteAt(s, j, RBRACKET);
      OccursSplit(s, i, ItemBytes(e), [RBRACKET]);
    }
  }

  /** A string without its end is not followed by anything. */
  lemma OpenIsLast(s: seq<byte>, i: nat, t: Text, v: nat)
    requires Stands(s, i, t, v) && v <= |s|
    ensures t.OpenText? ==> At(s, Skip(s, v)) == 0
  {
    hide Longest, TextBytes;
  }

  lemma {:induction false} ObjectSound(s: seq<byte>, i: nat) returns (t: Text)
    requires i < |s| && s[i] == LBRACE && ParseValue(s, i).Done?
    ensures Loose(t) && Stands(s, i, t, ParseValue(s, i).next) && t.ObjText?
    decreases |s| - i, 0
  {
    hide ParseValue, ParseMembers, Skip, Occurs, MembersBytes, LooseMember, LooseBlanks;
    ObjectAt(s, i);
    ByteAt(s, i, LBRACE);
    var j := Skip(s, i + 1);
    if At(s, j) == RBRACE {
      var blank := s[i + 1..j];
      SkippedBlanks(s, i + 1);
      ByteAt(s, j, RBRACE);
      OccursSplit(s, i + 1, blank, [RBRACE]);
      OccursSplit(s, i, [LBRACE], blank + [RBRACE]);
      t := ObjText(blank, []);
    } else {
      var members := MembersSound(s, i + 1);
      assert [] + MembersBytes(members) == MembersBytes(members);
      OccursSplit(s, i, [LBRACE], MembersBytes(members));
      NoBlanks();
      t := ObjText([], members);
    }
  }

  /** A name that is read, with its colon, and the blanks around them. */
  lemma NameSound(s: seq<byte>, i: nat) returns (m: MemberText)
    requires i <= |s| && ParseString(s, Skip(s, i)).Done?
    requires At(s, Skip(s, ParseString(s, Skip(s, i)).next)) == COLON
    ensures LooseName(m) && Occurs(s, i, NameBytes(m))
    ensures i + |NameBytes(m)| == Skip(s, Skip(s, ParseString(s, Skip(s, i)).next) + 1)
    ensures m.value == NullText && m.after == []
  {
    hide ParseString, Skip, Occurs, LooseBlanks, StringBytes, LooseChars;
    var k := Skip(s, i);
    var cs, open := StringSound(s, k);
    var n := ParseString(s, k).next;
    var c := Skip(s, n);
    var v := Skip(s, c + 1);
    m := MemberText(s[i..k], cs, s[n..c], s[c + 1..v], NullText, []);
    SkippedBlanks(s, i);
    SkippedBlanks(s, n);
    SkippedBlanks(s, c + 1);
    ByteAt(s, c, COLON);
    OccursSplit(s, c, [COLON], m.beforeValue);
    OccursSplit(s, n, m.afterName, [COLON] + m.beforeValue);
    OccursSplit(s, k, StringBytes(cs), m.afterName + ([COLON] + m.beforeValue));
    OccursSplit(s, i, m.before, StringBytes(cs) + (m.afterName + ([COLON] + m.beforeValue)));
  }

  lemma {:induction false} MemberSound(s: seq<byte>, i: nat) returns (m: MemberText)
    requires i <= |s| && ParseMember(s, i).Done?
    ensures LooseName(m) && Loose(m.value) && LooseBlanks(m.after) && ParseMember(s, i).next <= |s|
    ensures Stands(s, i + |NameBytes(m)|, m.value, ParseMember(s, i).next)
    ensures Occurs(s, i, MemberBytes(m)) && i + |MemberBytes(m)| == Skip(s, ParseMember(s, i).next)
    decreases |s| - i, 2
  {
    hide ParseValue, ParseString, Skip, Occurs, LooseBlanks, NameBytes, LooseChars, Loose, Stands, TextBytes;
    var head := NameSound(s, i);
    var v := i + |NameBytes(head)|;
    var p := ParseValue(s, v);
    var t := ValueSound(s, v);
    m := head.(value := t, after := s[p.next..Skip(s, p.next)]);
    SkippedBlanks(s, p.next);
    SameName(head, m);
    StandsThere(s, v, t, p.next);
    OccursSplit(s, v, TextBytes(t), m.after);
    OccursSplit(s, i, NameBytes(m), TextBytes(t) + m.after);
  }

  lemma StandsThere(s: seq<byte>, i: nat, t: Text, v: nat)
    requires Stands(s, i, t, v)
    ensures Occurs(s, i, TextBytes(t)) && v == i + |TextBytes(t)|
  {
  }

  lemma SameName(a: MemberText, b: MemberText)
    requires a.before == b.before && a.name == b.name && a.afterName == b.afterName && a.beforeValue == b.beforeValue
    ensures NameBytes(a) == NameBytes(b)
  {
  }

  lemma {:induction false} MembersSound(s: seq<byte>, i: nat) returns (members: seq<MemberText>)
    requires i <= |s| && ParseMembers(s, i).Done?
    ensures |members| > 0 && forall k :: 0 <= k < |members| ==> LooseMember(members[k])
    ensures Occurs(s, i, MembersBytes(members)) && ParseMembers(s, i).next == i + |MembersBytes(members)|
    decreases |s| - i, 3
  {
    hide ParseMember, Skip, Occurs, Loose, LooseBlanks, LooseChars, MemberBytes, NameBytes, Stands;
    var p := ParseMember(s, i);
    var m := MemberSound(s, i);
    var j := Skip(s, p.next);
    OpenIsLast(s, i + |NameBytes(m)|, m.value, p.next);
    if At(s, j) == COMMA {
      var rest := MembersSound(s, j + 1);
      members := [m] + rest;
      assert members[1..] == rest;
      ByteAt(s, j, COMMA);
      OccursSplit(s, j, [COMMA], MembersBytes(rest));
      OccursSplit(s, i, MemberBytes(m), [COMMA] + MembersBytes(rest));
    } else {
      members := [m];
      ByteAt(s, j, RBRACE);
      OccursSplit(s, i, MemberBytes(m), [RBRACE]);
    }
  }

  // ---------- what is accepted ----------

  /** From i to n stands a text of the loose grammar with the value v. */
  ghost predicate Spells(s: seq<byte>, i: nat, n: nat, v: Value) {
    exists t: Text :: Loose(t) && Stands(s, i, t, n) && Meaning(t) == v
  }

  /**
   The parser accepts a value, up to some index, if and only if a text of the loose grammar stands there, and what it
   builds is the meaning of that text.
   */
  lemma AcceptsExactly(s: seq<byte>, i: nat, n: nat, v: Value)
    requires i <= |s| && !ParseValue(s, i).OutOfBounds?
    ensures ParseValue(s, i) == Done(n, v) <==> Spells(s, i, n, v)
  {
    hide ParseValue, Stands, Loose, Meaning, WellEscaped;
    if ParseValue(s, i) == Done(n, v) {
      var t := ValueSound(s, i);
      LooseComplete(s, i, t, n);
    }
    if Spells(s, i, n, v) {
      var t: Text :| Loose(t) && Stands(s, i, t, n) && Meaning(t) == v;
      LooseComplete(s, i, t, n);
    }
  }

  /** The whole of s is a text of the loose grammar, between blanks, with the value v. */
  ghost predicate IsText(s: seq<byte>, before: seq<byte>, t: Text, after: seq<byte>) {
    && LooseBlanks(before) && Loose(t) && LooseBlanks(after) && (t.OpenText? ==> after == [])
    && s == before + (TextBytes(t) + after)
  }

  /** With the demand for a terminator: exactly the texts of the loose grammar. */
  lemma TextsAcceptedExactly(s: seq<byte>, v: Value)
    requires !ParseText(s, true).OutOfBounds?
    ensures ParseText(s, true) == Done(|s|, v) <==>
      exists before, t: Text, after :: IsText(s, before, t, after) && Meaning(t) == v
  {
    hide ParseValue, TextBytes, Meaning, Loose, LooseBlanks, Skip, WellEscaped;
    if ParseText(s, true) == Done(|s|, v) {
      var before, t, after := WholeText(s);
      TextComplete(before, t, after);
    }
    if exists before, t: Text, after :: IsText(s, before, t, after) && Meaning(t) == v {
      var before, t: Text, after :| IsText(s, before, t, after) && Meaning(t) == v;
      TextComplete(before, t, after);
    }
  }

  lemma WholeText(s: seq<byte>) returns (before: seq<byte>, t: Text, after: seq<byte>)
    requires ParseText(s, true).Done?
    ensures IsText(s, before, t, after)
  {
    hide ParseValue, TextBytes, Loose, LooseBlanks, Skip, Longest;
    var k := Skip(s, 0);
    t := ValueSound(s, k);
    var v := ParseValue(s, k).next;
    SkippedBlanks(s, 0);
    SkippedBlanks(s, v);
    before, after := s[..k], s[v..];
    assert s[0..k] == before && s[v..|s|] == after && s == before + (s[k..v] + after);
  }
}
