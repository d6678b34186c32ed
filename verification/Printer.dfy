/**
 The unformatted printer of cJSON.c over the heap: every text is measured, allocated and composed, and
 the texts of the children are freed once they have been copied, or as soon as anything fails.
 */
module Printer {
  import opened Bytes
  import opened Unicode
  import opened Json
  import opened JsonParse
  import opened JsonPrint
  import opened Heap
  import opened Tree
  import opened Links

  // ---------- the text of a structure ----------

  /** The text for a string; for a null pointer it is empty, without quotation marks. */
  ghost function StrText(w: nat, held: seq<byte>, str: Option<Str>): (t: seq<byte>)
    ensures NulFree(t)
  {
    if str.None? then [] else PrintString(w, held, str.value.text)
  }

  ghost function ShapeText(w: nat, held: Held, sh: Shape): seq<byte>
    decreases sh
  {
    match sh.typ % IS_REFERENCE
    case 1 => TRUE_TEXT
    case 2 => NULL_TEXT
    case 3 => PrintNumber(w, held.value, sh.valueint)
    case 4 => StrText(w, held.value, sh.str)
    case 5 => Bracketed(LBRACKET, ItemTexts(w, held.kids, sh.kids), RBRACKET)
    case 6 => Bracketed(LBRACE, MemberTexts(w, held.kids, sh.kids), RBRACE)
    case _ => FALSE_TEXT
  }

  ghost function ItemTexts(w: nat, hs: seq<Held>, kids: seq<Shape>): (ts: seq<seq<byte>>)
    ensures |ts| == |kids| && forall i :: 0 <= i < |kids| ==> ts[i] == ShapeText(w, Kid(hs, i), kids[i])
    decreases kids
  {
    if |kids| == 0 then [] else [ShapeText(w, Kid(hs, 0), kids[0])] + ItemTexts(w, Later(hs), kids[1..])
  }

  ghost function MemberTexts(w: nat, hs: seq<Held>, kids: seq<Shape>): (ts: seq<seq<byte>>)
    ensures |ts| == |kids|
    ensures forall i :: 0 <= i < |kids| ==>
      ts[i] == Pair(StrText(w, Kid(hs, i).name, kids[i].name), ShapeText(w, Kid(hs, i), kids[i]))
    decreases kids
  {
    if |kids| == 0 then []
    else
      var first := Pair(StrText(w, Kid(hs, 0).name, kids[0].name), ShapeText(w, Kid(hs, 0), kids[0]));
      [first] + MemberTexts(w, Later(hs), kids[1..])
  }

  function Pair(name: seq<byte>, value: seq<byte>): seq<byte> { name + ([COLON] + value) }

  /** Texts with commas between them and a closing bracket behind them. */
  function Join(ts: seq<seq<byte>>, close: byte): seq<byte>
    requires |ts| > 0
  {
    if |ts| == 1 then ts[0] + [close] else ts[0] + ([COMMA] + Join(ts[1..], close))
  }

  function Bracketed(open: byte, ts: seq<seq<byte>>, close: byte): seq<byte> {
    [open] + if |ts| == 0 then [close] else Join(ts, close)
  }

  /** The structure has known types, integer numbers and C strings. */
  ghost predicate CanPrint(sh: Shape)
    decreases sh
  {
    match sh.typ % IS_REFERENCE
    case 3 => IsInt(sh.number) && sh.valueint == sh.number.Floor
    case 4 => IsCText(sh.str)
    case 5 => forall i :: 0 <= i < |sh.kids| ==> CanPrint(sh.kids[i])
    case 6 => forall i :: 0 <= i < |sh.kids| ==> IsCText(sh.kids[i].name) && CanPrint(sh.kids[i])
    case t => t <= 2
  }

  ghost predicate IsCText(str: Option<Str>) { str.Some? ==> NulFree(str.value.text) }

  // ---------- the blocks of a structure ----------

  ghost predicate StrRecorded(held: seq<byte>, str: Option<Str>) { str.Some? ==> |held| == StringBlock(str.value.text) }

  /** The record has the size of the blocks that the printer asks for. */
  ghost predicate ShapeRecorded(held: Held, sh: Shape)
    decreases sh
  {
    match sh.typ % IS_REFERENCE
    case 3 => |held.value| == NUMBER_BLOCK
    case 4 => StrRecorded(held.value, sh.str)
    case 5 => |held.kids| == |sh.kids| && forall i :: 0 <= i < |sh.kids| ==> ShapeRecorded(held.kids[i], sh.kids[i])
    case 6 => |held.kids| == |sh.kids| && forall i :: 0 <= i < |sh.kids| ==>
        StrRecorded(held.kids[i].name, sh.kids[i].name) && ShapeRecorded(held.kids[i], sh.kids[i])
    case _ => true
  }

  /** The text for the node ends inside its block; that of a number need not. */
  ghost predicate ShapeEnds(w: nat, held: Held, sh: Shape) {
    sh.typ % IS_REFERENCE == TYPE_NUMBER ==> |PrintNumber(w, held.value, sh.valueint)| < NUMBER_BLOCK
  }

  /** So do the texts of all nodes below it. */
  ghost predicate ShapeInnerEnd(w: nat, held: Held, sh: Shape)
    decreases sh
  {
    sh.typ % IS_REFERENCE in {TYPE_ARRAY, TYPE_OBJECT} ==>
      forall i :: 0 <= i < |sh.kids| ==>
        ShapeEnds(w, Kid(held.kids, i), sh.kids[i]) && ShapeInnerEnd(w, Kid(held.kids, i), sh.kids[i])
  }

  ghost predicate AllEnd(w: nat, held: Held, sh: Shape) { ShapeEnds(w, held, sh) && ShapeInnerEnd(w, held, sh) }

  /** There is a number in the structure. */
  ghost predicate HasNumber(sh: Shape)
    decreases sh
  {
    match sh.typ % IS_REFERENCE
    case 3 => true
    case 5 => exists i :: 0 <= i < |sh.kids| && HasNumber(sh.kids[i])
    case 6 => exists i :: 0 <= i < |sh.kids| && HasNumber(sh.kids[i])
    case _ => false
  }

  ghost predicate HaveNumber(kids: seq<Shape>) { exists i :: 0 <= i < |kids| && HasNumber(kids[i]) }

  /** Every write through a null pointer has a failed allocation of its own, and comes with a number. */
  ghost predicate Accounted(numbers: bool, failures: nat, failures': nat, nullWrites: nat, nullWrites': nat) {
    0 <= nullWrites' - nullWrites <= failures' - failures && (!numbers ==> nullWrites' == nullWrites)
  }

  /** What the block for a name held does not matter to the rest. */
  lemma OtherName(w: nat, held: Held, name: seq<byte>, sh: Shape)
    ensures var h := held.(name := name);
      && ShapeText(w, h, sh) == ShapeText(w, held, sh)
      && (ShapeRecorded(h, sh) <==> ShapeRecorded(held, sh))
      && (ShapeInnerEnd(w, h, sh) <==> ShapeInnerEnd(w, held, sh))
      && (ShapeEnds(w, h, sh) <==> ShapeEnds(w, held, sh))
  {
  }

  // ---------- texts in blocks ----------

  /** A reader of C strings finds the text in the block, before a terminator or the end of the block. */
  ghost predicate Reads(block: array<byte>, t: seq<byte>)
    reads block
  {
    |t| <= block.Length && block[..|t|] == t && NulFree(t) && (|t| < block.Length ==> block[|t|] == 0)
  }

  lemma CStringReads(block: array<byte>, t: seq<byte>)
    ensures CString(block, t) <==> Reads(block, t) && |t| < block.Length
  {
  }

  /** What a block reads as that holds some bytes and a zero behind them. */
  lemma ReadsUpToNul(block: array<byte>, bytes: seq<byte>)
    requires |bytes| < block.Length && block[..|bytes|] == bytes && block[|bytes|] == 0
    ensures CString(block, UpToNul(bytes))
  {
    var t := UpToNul(bytes);
    assert block[..|t|] == bytes[..|t|];
    assert |t| < |bytes| ==> block[|t|] == bytes[|t|];
  }

  /**
   One byte of a block, as strlen and strcpy look at it. Behind the end of the block there may be anything:
   that it was read is recorded, and the text is taken to end there.
   */
  method Peek(lib: Library, block: array<byte>, i: nat) returns (b: byte)
    requires i <= block.Length
    modifies lib`overReads
    ensures i < block.Length ==> b == block[i] && lib.overReads == old(lib.overReads)
    ensures i == block.Length ==> b == 0 && lib.overReads == old(lib.overReads) + 1
  {
    if i == block.Length {
      lib.overReads := lib.overReads + 1;
      return 0;
    }
    return block[i];
  }

  lemma ReadsAt(block: array<byte>, t: seq<byte>, k: nat)
    requires Reads(block, t) && k <= |t|
    ensures k < |t| ==> k < block.Length && block[k] == t[k] && t[k] != 0
    ensures k == |t| < block.Length ==> block[k] == 0
  {
    if k < |t| {
      assert block[..|t|][k] == t[k];
    }
  }

  /** strlen of a text that was printed. */
  method TextLength(lib: Library, block: array<byte>, ghost t: seq<byte>) returns (len: nat)
    requires Reads(block, t)
    modifies lib`overReads
    ensures len == |t| && lib.overReads == old(lib.overReads) + if |t| < block.Length then 0 else 1
  {
    len := 0;
    ReadsAt(block, t, 0);
    var b := Peek(lib, block, 0);
    while b != 0
      invariant len <= |t| && (b == 0 <==> len == |t|)
      invariant lib.overReads == old(lib.overReads) + if len == block.Length then 1 else 0
      decreases |t| - len
    {
      len := len + 1;
      ReadsAt(block, t, len);
      b := Peek(lib, block, len);
    }
  }

  // ---------- strings ----------

  /** chsnprintf: at most size characters of the rendering, and a terminator if there is room for it. */
  method Snprintf(out: array<byte>, ptr: nat, size: nat, r: seq<byte>)
    requires ptr + |r| < out.Length
    modifies out
    ensures out[..ptr] == old(out[..ptr])
    ensures |r| <= size ==> out[ptr..ptr + |r|] == r
    ensures |r| < size ==> out[ptr + |r|] == 0
    ensures |r| >= size ==> out[ptr..ptr + size] == r[..size] && out[ptr + size..] == old(out[ptr + size..])
  {
    var n := if |r| < size then |r| else size;
    var i := 0;
    while i < n
      invariant i <= n && out[..ptr] == old(out[..ptr]) && out[ptr..ptr + i] == r[..i]
      invariant out[ptr + i..] == old(out[ptr + i..])
    {
      out[ptr + i] := r[i];
      i := i + 1;
    }
    if n < size {
      out[ptr + n] := 0;
    }
  }

  lemma RoomStep(s: seq<byte>, i: nat)
    requires i < |s|
    ensures Room(s[i..]) == CharRoom(s[i]) + Room(s[i + 1..])
  {
    assert s[i..][1..] == s[i + 1..];
  }

  lemma PrintCharsStep(w: nat, held: seq<byte>, i: nat, s: seq<byte>, k: nat)
    requires k < |s|
    ensures PrintChars(w, held, i, s[k..]) ==
      PrintChar(w, held, i, s[k]) + PrintChars(w, held, i + CharRoom(s[k]), s[k + 1..])
  {
    assert s[k..][1..] == s[k + 1..];
  }

  /**
   The first pass of print_string_ptr counts the characters of the printed string exactly, whatever the block will
   hold.
   */
  method MeasurePrinted(str: array<byte>, ghost s: seq<byte>) returns (len: nat)
    requires CString(str, s)
    ensures len == Room(s) && forall w: nat, held: seq<byte> :: |PrintChars(w, held, 1, s)| == len
  {
    hide PrintChars, Room;
    len := 0;
    var ptr := 0;
    CharAt(str, s, 0);
    assert s[0..] == s;
    while str[ptr] != 0
      invariant ptr <= |s| && str[ptr] == At(s, ptr) && (str[ptr] == 0 <==> ptr == |s|)
      invariant len + Room(s[ptr..]) == Room(s)
      decreases |s| - ptr
    {
      var token := str[ptr];
      RoomStep(s, ptr);
      len := len + 1;
      if token in [QUOTE, BACKSLASH, 0x08, 0x0C, 0x0A, 0x0D, 0x09] {
        len := len + 1;
      } else if token < 32 {
        len := len + 5;
      }
      ptr := ptr + 1;
      CharAt(str, s, ptr);
    }
    NoRoom(s[ptr..]);
  }

  lemma NoRoom(s: seq<byte>)
    requires s == []
    ensures Room(s) == 0
  {
  }

  /** One turn of the second pass: the text for one character is written over what the block held. */
  method WriteChar(out: array<byte>, ptr2: nat, w: nat, b: byte) returns (end: nat)
    requires b != 0 && ptr2 + CharRoom(b) < out.Length
    modifies out
    ensures end == ptr2 + CharRoom(b) && out[..ptr2] == old(out[..ptr2])
    ensures out[ptr2..end] == PrintChar(w, old(out[..]), ptr2, b)
    ensures w <= 5 ==> out[end..] == old(out[end..])
  {
    if b > 31 && b != QUOTE && b != BACKSLASH {
      out[ptr2] := b;
      return ptr2 + 1;
    }
    ghost var held := out[..];
    out[ptr2] := BACKSLASH;
    end := ptr2 + 2;
    match b
    case 0x5C => out[ptr2 + 1] := 0x5C;
    case 0x22 => out[ptr2 + 1] := 0x22;
    case 0x08 => out[ptr2 + 1] := 0x62;
    case 0x0C => out[ptr2 + 1] := 0x66;
    case 0x0A => out[ptr2 + 1] := 0x6E;
    case 0x0D => out[ptr2 + 1] := 0x72;
    case 0x09 => out[ptr2 + 1] := 0x74;
    case _ =>
      end := ptr2 + 6;
      WriteHex(out, ptr2, w, b, held);
  }

  /** chsnprintf of "u%04x" behind the backslash. */
  method WriteHex(out: array<byte>, ptr2: nat, w: nat, b: byte, ghost held: seq<byte>)
    requires ptr2 + 6 < out.Length && NeedsHex(b) && out[ptr2] == BACKSLASH && |held| == out.Length
    requires out[ptr2 + 1..] == held[ptr2 + 1..]
    modifies out
    ensures out[..ptr2] == old(out[..ptr2]) && out[ptr2..ptr2 + 6] == PrintChar(w, held, ptr2, b)
    ensures w <= 5 ==> out[ptr2 + 6..] == old(out[ptr2 + 6..])
  {
    var r, i := [LETTER_U] + HexText(b), ptr2 + 1;
    hide HexText;
    Snprintf(out, i, w, r);
    if w < 5 {
      assert out[i + w..] == held[i..][w..] && held[i..][w..] == held[i + w..];
      assert held[i + w..][..5 - w] == Cells(held, i)[w..];
      assert out[i..i + 5] == out[i..i + w] + out[i + w..][..5 - w];
    }
    assert out[i..i + 5] == HexEscape(w, held, i, b);
    assert out[ptr2] == out[..i][ptr2] && out[..ptr2] == out[..i][..ptr2];
    assert out[ptr2..i + 5] == [BACKSLASH] + out[i..i + 5];
  }

  /** cJSON_strdup of a literal, or malloc and strcpy of one. */
  method StrdupLiteral(lib: Library, s: seq<byte>) returns (copy: array?<byte>)
    requires NulFree(s)
    modifies lib`live, lib`failures
    ensures copy == null ==> lib.live == old(lib.live) && lib.failures > old(lib.failures)
    ensures copy != null ==> fresh(copy) && CString(copy, s) && copy.Length == |s| + 1
    ensures copy != null ==> lib.live == old(lib.live) + {copy} && lib.failures == old(lib.failures)
  {
    copy := lib.Malloc(|s| + 1);
    if copy == null { return; }
    var i := 0;
    while i < |s|
      invariant i <= |s| && copy[..i] == s[..i]
      modifies copy
    {
      copy[i] := s[i];
      i := i + 1;
    }
    copy[i] := 0;
  }

  /** strcpy of a text that was printed, with the terminator. */
  method StrCpy(lib: Library, out: array<byte>, ptr: nat, src: array<byte>, ghost t: seq<byte>)
    requires Reads(src, t) && ptr + |t| < out.Length && out != src
    modifies out, lib`overReads
    ensures out[..ptr] == old(out[..ptr]) && out[ptr..ptr + |t|] == t && out[ptr + |t|] == 0
    ensures lib.overReads == old(lib.overReads) + if |t| < src.Length then 0 else 1
  {
    var i := 0;
    ReadsAt(src, t, 0);
    var b := Peek(lib, src, 0);
    while b != 0
      invariant i <= |t| && (b == 0 <==> i == |t|) && (i < |t| ==> b == t[i])
      invariant lib.overReads == old(lib.overReads) + if i == src.Length then 1 else 0
      invariant out[..ptr] == old(out[..ptr]) && out[ptr..ptr + i] == t[..i] && Reads(src, t)
      decreases |t| - i
    {
      out[ptr + i] := b;
      i := i + 1;
      ReadsAt(src, t, i);
      b := Peek(lib, src, i);
    }
    out[ptr + i] := 0;
  }

  /**
   print_string_ptr: the block is as long as the text that was measured and its terminator, all of it is
   written, and what it reads as is the printed string over what it held.
   */
  method PrintStringPtr(lib: Library, w: nat, str: array?<byte>, ghost s: Option<Str>)
    returns (out: array?<byte>, ghost held: seq<byte>)
    requires StrHolds(str, s)
    modifies lib`live, lib`failures
    ensures out == null ==> lib.live == old(lib.live) && lib.failures > old(lib.failures)
    ensures out != null ==> fresh(out) && lib.live == old(lib.live) + {out} && lib.failures == old(lib.failures)
    ensures out != null ==> CString(out, StrText(w, held, s)) && StrRecorded(held, s)
    ensures out != null && s.Some? ==>
      out.Length == StringBlock(s.value.text) && out[..out.Length - 1] == QuotedChars(w, held, s.value.text)
  {
    hide PrintChars, PrintChar, Room, CString;
    held := [];
    if str == null {
      out := StrdupLiteral(lib, []);
      return;
    }
    ghost var text := s.value.text;
    var len := MeasurePrinted(str, text);
    out := lib.Malloc(len + 3);
    if out == null { return; }
    held := out[..];
    out[0] := QUOTE;
    var ptr2 := ComposePrinted(str, out, w, held, text);
    out[ptr2] := QUOTE;
    out[ptr2 + 1] := 0;
    assert out[..ptr2 + 1] == [QUOTE] + (out[1..ptr2] + [QUOTE]);
    ReadsUpToNul(out, QuotedChars(w, held, text));
  }

  /** The second pass of print_string_ptr, between the quotation marks. */
  method ComposePrinted(str: array<byte>, out: array<byte>, w: nat, ghost held: seq<byte>, ghost s: seq<byte>)
    returns (ptr2: nat)
    requires CString(str, s) && out != str && out.Length == StringBlock(s) == |held| && out[1..] == held[1..]
    modifies out
    ensures ptr2 == out.Length - 2 && out[0] == old(out[0]) && out[1..ptr2] == PrintChars(w, held, 1, s)
  {
    hide PrintChars, PrintChar, Room, CString;
    ptr2 := 1;
    var ptr := 0;
    CharAt(str, s, 0);
    assert s[0..] == s && out[1..1] == [];
    while str[ptr] != 0
      invariant CString(str, s) && ptr <= |s| && str[ptr] == At(s, ptr) && (str[ptr] == 0 <==> ptr == |s|)
      invariant 1 <= ptr2 && ptr2 + Room(s[ptr..]) == out.Length - 2 && out[0] == old(out[0])
      invariant out[1..ptr2] + PrintChars(w, held, ptr2, s[ptr..]) == PrintChars(w, held, 1, s)
      invariant w <= 5 ==> out[ptr2..] == held[ptr2..]
      decreases |s| - ptr
    {
      ghost var from, was, b := ptr2, out[..], s[ptr];
      ghost var rest := PrintChars(w, held, ptr2 + CharRoom(b), s[ptr + 1..]);
      PrintCharsStep(w, held, ptr2, s, ptr);
      RoomStep(s, ptr);
      SameChar(w, was, held, ptr2, b);
      ptr2 := WriteChar(out, ptr2, w, str[ptr]);
      assert out[1..ptr2] == out[..from][1..] + out[from..ptr2] && out[..from][1..] == was[1..from];
      assert was[1..from] + (PrintChar(w, held, from, b) + rest) == (was[1..from] + PrintChar(w, held, from, b)) + rest;
      assert out[0] == out[..from][0];
      assert w <= 5 ==> was[ptr2..] == was[from..][ptr2 - from..] && held[ptr2..] == held[from..][ptr2 - from..];
      ptr := ptr + 1;
      CharAt(str, s, ptr);
    }
    NoRoom(s[ptr..]);
    NoChars(w, held, ptr2, s[ptr..]);
  }

  lemma NoChars(w: nat, held: seq<byte>, i: nat, s: seq<byte>)
    requires s == []
    ensures PrintChars(w, held, i, s) == []
  {
  }

  /** Only what a block held from the index on matters to a character printed there, and only for a W below six. */
  lemma SameChar(w: nat, held: seq<byte>, held': seq<byte>, i: nat, b: byte)
    requires |held| == |held'| && i + CharRoom(b) < |held| && (w <= 5 ==> held[i..] == held'[i..])
    ensures PrintChar(w, held, i, b) == PrintChar(w, held', i, b)
  {
    hide HexText;
    if w < 5 && NeedsHex(b) {
      assert forall k :: i <= k < |held| ==> held[k] == held[i..][k - i] && held'[k] == held'[i..][k - i];
      assert Cells(held, i + 1) == Cells(held', i + 1);
    }
  }

  // ---------- lists of texts ----------

  function Total(ts: seq<seq<byte>>): nat {
    if |ts| == 0 then 0 else Total(ts[..|ts| - 1]) + |ts[|ts| - 1]|
  }

  lemma TotalOfNone(ts: seq<seq<byte>>)
    requires ts == []
    ensures Total(ts) == 0
  {
  }

  lemma TotalAppend(ts: seq<seq<byte>>, t: seq<byte>)
    ensures Total(ts + [t]) == Total(ts) + |t|
  {
    assert (ts + [t])[..|ts|] == ts;
  }

  lemma {:induction false} TotalCons(ts: seq<seq<byte>>)
    requires |ts| > 0
    ensures Total(ts) == |ts[0]| + Total(ts[1..])
  {
    if |ts| > 1 {
      TotalCons(ts[..|ts| - 1]);
      assert ts[..|ts| - 1][1..] == ts[1..][..|ts| - 2];
    }
  }

  lemma {:induction false} JoinLength(ts: seq<seq<byte>>, close: byte)
    requires |ts| > 0
    ensures |Join(ts, close)| == Total(ts) + |ts|
  {
    TotalCons(ts);
    if |ts| > 1 {
      JoinLength(ts[1..], close);
    }
  }

  lemma JoinStep(ts: seq<seq<byte>>, i: nat, close: byte)
    requires i < |ts|
    ensures Join(ts[i..], close) ==
      if i + 1 == |ts| then ts[i] + [close] else ts[i] + ([COMMA] + Join(ts[i + 1..], close))
  {
    assert i + 1 < |ts| ==> ts[i..][1..] == ts[i + 1..];
  }

  lemma {:induction false} JoinNulFree(ts: seq<seq<byte>>, close: byte)
    requires |ts| > 0 && close != 0 && forall i :: 0 <= i < |ts| ==> NulFree(ts[i])
    ensures NulFree(Join(ts, close))
  {
    if |ts| > 1 {
      JoinNulFree(ts[1..], close);
    }
  }

  // ---------- arrays of pointers to texts ----------

  /** The blocks that the pointers from index lo on point to. */
  ghost function Pointees(entries: seq<array?<byte>>, lo: nat): set<object> {
    set k | lo <= k < |entries| && entries[k] != null :: entries[k]
  }

  /** No block is pointed to twice. */
  ghost predicate Distinct(entries: seq<array?<byte>>) {
    forall i, j :: 0 <= i < j < |entries| && entries[i] != null ==> entries[i] != entries[j]
  }

  /** Giving back what a failed attempt has collected. */
  method FreeEntries(lib: Library, entries: array<array?<byte>>)
    requires Distinct(entries[..]) && Pointees(entries[..], 0) <= lib.live
    modifies lib`live
    ensures lib.live == old(lib.live) - Pointees(entries[..], 0)
  {
    var i := 0;
    while i < entries.Length
      invariant i <= entries.Length && Pointees(entries[..], i) <= lib.live
      invariant lib.live == old(lib.live) - (Pointees(entries[..], 0) - Pointees(entries[..], i))
    {
      NextPointee(entries[..], i);
      if entries[i] != null { lib.Free(entries[i]); }
      i := i + 1;
    }
    NoPointees(entries[..], i);
  }

  ghost function BlockSet(block: array?<byte>): set<object> { if block == null then {} else {block} }

  /** The blocks of names and values together. */
  ghost function Both(names: seq<array?<byte>>, entries: seq<array?<byte>>, lo: nat): set<object> {
    Pointees(names, lo) + Pointees(entries, lo)
  }

  ghost predicate BothDistinct(names: seq<array?<byte>>, entries: seq<array?<byte>>) {
    |names| == |entries| && Distinct(names) && Distinct(entries) && Pointees(names, 0) !! Pointees(entries, 0)
  }

  lemma NextOfBoth(names: seq<array?<byte>>, entries: seq<array?<byte>>, i: nat)
    requires i < |names| && BothDistinct(names, entries)
    ensures Both(names, entries, i) == Both(names, entries, i + 1) + BlockSet(names[i]) + BlockSet(entries[i])
    ensures BlockSet(names[i]) !! BlockSet(entries[i])
    ensures BlockSet(names[i]) + BlockSet(entries[i]) !! Both(names, entries, i + 1)
    ensures Both(names, entries, i) <= Both(names, entries, 0)
  {
    hide Pointees, Distinct;
    NextPointee(names, i);
    NextPointee(entries, i);
  }

  lemma NothingOfBoth(names: seq<array?<byte>>, entries: seq<array?<byte>>)
    requires |names| == |entries|
    ensures Both(names, entries, |names|) == {}
  {
  }

  /** The same for names and values. */
  method FreeAll(lib: Library, names: array<array?<byte>>, entries: array<array?<byte>>)
    requires BothDistinct(names[..], entries[..]) && Both(names[..], entries[..], 0) <= lib.live
    modifies lib`live
    ensures lib.live == old(lib.live) - Both(names[..], entries[..], 0)
  {
    hide Both, BothDistinct;
    var i := 0;
    assert names.Length == |names[..]| == |entries[..]| == entries.Length by { SameLength(names[..], entries[..]); }
    while i < entries.Length
      invariant i <= entries.Length && Both(names[..], entries[..], i) <= lib.live
      invariant lib.live == old(lib.live) - (Both(names[..], entries[..], 0) - Both(names[..], entries[..], i))
    {
      NextOfBoth(names[..], entries[..], i);
      if names[i] != null { lib.Free(names[i]); }
      if entries[i] != null { lib.Free(entries[i]); }
      i := i + 1;
    }
    NothingOfBoth(names[..], entries[..]);
  }

  lemma SameLength(names: seq<array?<byte>>, entries: seq<array?<byte>>)
    requires BothDistinct(names, entries)
    ensures |names| == |entries|
  {
  }

  lemma NextPointee(entries: seq<array?<byte>>, i: nat)
    requires i < |entries| && Distinct(entries)
    ensures Pointees(entries, i) == Pointees(entries, i + 1) + (if entries[i] == null then {} else {entries[i]})
    ensures entries[i] != null ==> entries[i] !in Pointees(entries, i + 1) && entries[i] in Pointees(entries, 0)
    ensures Pointees(entries, i) <= Pointees(entries, 0)
  {
  }

  /** The first pointers lead to the texts, each in a block of its own, and the others are null. */
  ghost predicate Filled(entries: seq<array?<byte>>, ts: seq<seq<byte>>)
    reads set k | 0 <= k < |entries| && entries[k] != null :: entries[k]
  {
    && |ts| <= |entries|
    && (forall k :: 0 <= k < |ts| ==> entries[k] != null && Reads(entries[k], ts[k]))
    && (forall k :: |ts| <= k < |entries| ==> entries[k] == null)
  }

  /** The text at k ends inside its block. */
  predicate EndsAt(entries: seq<array?<byte>>, ts: seq<seq<byte>>, k: nat)
    requires k < |ts| <= |entries|
  {
    entries[k] != null && |ts[k]| < entries[k].Length
  }

  predicate Terminated(entries: seq<array?<byte>>, ts: seq<seq<byte>>)
    requires |ts| <= |entries|
  {
    forall k :: 0 <= k < |ts| ==> EndsAt(entries, ts, k)
  }

  lemma TerminatedAt(entries: seq<array?<byte>>, ts: seq<seq<byte>>, k: nat)
    requires k < |ts| <= |entries| && Terminated(entries, ts)
    ensures EndsAt(entries, ts, k)
  {
  }

  lemma FilledNext(was: seq<array?<byte>>, now: seq<array?<byte>>, ts: seq<seq<byte>>, t: seq<byte>)
    requires |ts| < |was| == |now| && Filled(was, ts)
    requires var n := |ts|; now == was[n := now[n]] && now[n] != null && Reads(now[n], t)
    ensures Filled(now, ts + [t])
  {
    hide Reads;
  }

  lemma FilledAt(entries: seq<array?<byte>>, ts: seq<seq<byte>>, k: nat)
    requires Filled(entries, ts) && k < |ts|
    ensures |ts| <= |entries| && entries[k] != null && Reads(entries[k], ts[k])
  {
  }

  lemma FillNext(was: seq<array?<byte>>, now: seq<array?<byte>>, n: nat)
    requires n < |was| == |now| && was[n] == null && now == was[n := now[n]] && Distinct(was)
    requires now[n] == null || now[n] !in Pointees(was, 0)
    ensures Distinct(now)
    ensures Pointees(now, 0) == Pointees(was, 0) + (if now[n] == null then {} else {now[n]})
  {
    assert forall k :: 0 <= k < |was| ==> now[k] == if k == n then now[n] else was[k];
    forall b | b in Pointees(was, 0)
      ensures b in Pointees(now, 0)
    {
      var k :| 0 <= k < |was| && was[k] != null && was[k] == b;
      assert now[k] == b;
    }
    forall i, j | 0 <= i < j < |now| && now[i] != null
      ensures now[i] != now[j]
    {
      if i == n && now[j] != null { assert was[j] in Pointees(was, 0); }
      if j == n && now[n] != null { assert was[i] in Pointees(was, 0); }
    }
  }

  lemma NoPointees(entries: seq<array?<byte>>, lo: nat)
    requires lo >= |entries| || forall k :: 0 <= k < |entries| ==> entries[k] == null
    ensures Pointees(entries, lo) == {}
  {
  }

  lemma NothingFilled(entries: seq<array?<byte>>)
    requires forall k :: 0 <= k < |entries| ==> entries[k] == null
    ensures Distinct(entries) && Pointees(entries, 0) == {} && Filled(entries, [])
  {
  }

  // ---------- numbers ----------

  /**
   print_number of an integer. The text is that of the number over what the block held. The source does not
   look whether it got a block: without one it writes through a null pointer, and only then.
   */
  method PrintNumberItem(lib: Library, w: nat, item: Node, ghost sh: Shape)
    returns (out: array?<byte>, ghost held: seq<byte>)
    requires item == sh.node && Holds(sh) && CanPrint(sh) && sh.typ % IS_REFERENCE == TYPE_NUMBER
    modifies lib`live, lib`failures, lib`nullWrites
    ensures out == null ==>
      lib.live == old(lib.live) && lib.failures == old(lib.failures) + 1 && lib.nullWrites == old(lib.nullWrites) + 1
    ensures out != null ==> fresh(out) && lib.live == old(lib.live) + {out} && lib.failures == old(lib.failures)
    ensures out != null ==> Reads(out, PrintNumber(w, held, sh.valueint)) && lib.nullWrites == old(lib.nullWrites)
    ensures out != null ==> out.Length == |held| == NUMBER_BLOCK
  {
    hide DecimalText;
    held := [];
    IntLength(item.valueint);
    out := lib.Malloc(NUMBER_BLOCK);
    if out == null {
      lib.nullWrites := lib.nullWrites + 1;
      return;
    }
    held := out[..];
    ghost var r := DecimalText(item.valueint);
    Snprintf(out, 0, w, DecimalText(item.valueint));
    DecimalNulFree(item.valueint);
    if |r| < w {
      assert out[..|r|] == out[0..0 + |r|];
    } else {
      assert out[..w] == out[0..0 + w] && out[w..] == held[w..] == Behind(held, w);
      ClippedReads(out, w, r, held);
    }
  }

  lemma ClippedReads(out: array<byte>, w: nat, r: seq<byte>, held: seq<byte>)
    requires w <= |r| < out.Length == |held| && out[..w] == r[..w] && out[w..] == Behind(held, w) && NulFree(r)
    ensures Reads(out, Clipped(r, w, held))
  {
    var behind := UpToNul(Behind(held, w));
    var t := r[..w] + behind;
    assert out[..|t|] == out[..w] + out[w..][..|behind|];
    assert |t| < out.Length ==> out[|t|] == out[w..][|behind|];
  }

  lemma DecimalNulFree(n: int)
    ensures NulFree(DecimalText(n))
  {
  }

  // ---------- values ----------

  /**
   The block of a node holds its text over what the record says, and the text ends inside it unless it is that of a
   number.
   */
  ghost predicate Printed(out: array<byte>, w: nat, held: Held, sh: Shape)
    reads out
  {
    && Reads(out, ShapeText(w, held, sh)) && ShapeRecorded(held, sh)
    && (|ShapeText(w, held, sh)| < out.Length <==> ShapeEnds(w, held, sh))
  }

  lemma PrintedLiteral(out: array<byte>, w: nat, held: Held, sh: Shape)
    requires sh.typ % IS_REFERENCE <= TYPE_NULL && CString(out, ShapeText(w, held, sh))
    ensures Printed(out, w, held, sh) && ShapeInnerEnd(w, held, sh)
  {
    CStringReads(out, ShapeText(w, held, sh));
  }

  lemma PrintedScalar(out: array<byte>, w: nat, held: seq<byte>, sh: Shape)
    requires var h := Held(held, [], []);
      if sh.typ % IS_REFERENCE == TYPE_NUMBER then
        Reads(out, PrintNumber(w, held, sh.valueint)) && out.Length == |held| == NUMBER_BLOCK
      else sh.typ % IS_REFERENCE == TYPE_STRING && CString(out, StrText(w, held, sh.str)) && StrRecorded(held, sh.str)
    ensures Printed(out, w, Held(held, [], []), sh) && ShapeInnerEnd(w, Held(held, [], []), sh)
  {
    CStringReads(out, StrText(w, held, sh.str));
  }

  /**
   print_value without formatting, for every structure and every W. The result is a fresh block with the text
   of the structure, and nothing else is left of what was allocated on the way; or it is null, because an
   allocation failed, and the ledger is as it was. A block is read behind its end exactly when the text of a
   number inside an array or an object does not end in its block.
   */
  method PrintValue(lib: Library, w: nat, item: Node, ghost sh: Shape) returns (out: array?<byte>, ghost held: Held)
    requires item == sh.node && Holds(sh) && CanPrint(sh)
    modifies lib`live, lib`failures, lib`nullWrites, lib`overReads
    ensures out == null ==> lib.live == old(lib.live) && lib.failures > old(lib.failures)
    ensures out != null ==> fresh(out) && lib.live == old(lib.live) + {out} && lib.failures == old(lib.failures)
    ensures out != null ==> Printed(out, w, held, sh)
    ensures lib.overReads >= old(lib.overReads)
    ensures (out != null ==> (lib.overReads == old(lib.overReads) <==> ShapeInnerEnd(w, held, sh)))
    ensures Accounted(HasNumber(sh), old(lib.failures), lib.failures, old(lib.nullWrites), lib.nullWrites)
    decreases sh, 2
  {
    hide HoldsAll, ItemTexts, MemberTexts, CString, PrintNumber, StrText, Reads, Printed, ShapeRecorded, ShapeEnds;
    hide ShapeInnerEnd;
    FieldsOf(sh);
    held := NOTHING;
    ghost var bytes;
    match item.typ % IS_REFERENCE
    case 2 =>
      out := StrdupLiteral(lib, NULL_TEXT);
      if out != null { PrintedLiteral(out, w, held, sh); }
    case 0 =>
      out := StrdupLiteral(lib, FALSE_TEXT);
      if out != null { PrintedLiteral(out, w, held, sh); }
    case 1 =>
      out := StrdupLiteral(lib, TRUE_TEXT);
      if out != null { PrintedLiteral(out, w, held, sh); }
    case 3 =>
      out, bytes := PrintNumberItem(lib, w, item, sh);
      held := Held(bytes, [], []);
      if out != null { PrintedScalar(out, w, bytes, sh); }
    case 4 =>
      out, bytes := PrintStringPtr(lib, w, item.valuestring, sh.str);
      held := Held(bytes, [], []);
      if out != null { PrintedScalar(out, w, bytes, sh); }
    case 5 =>
      out, held := PrintArrayItem(lib, w, item, sh);
    case 6 =>
      out, held := PrintObjectItem(lib, w, item, sh);
  }

  // ---------- arrays ----------

  /** The texts are those of the first children over what the records say, and each ends as that of its child does. */
  ghost predicate AreTexts(entries: seq<array?<byte>>, w: nat, hs: seq<Held>, kids: seq<Shape>, ts: seq<seq<byte>>) {
    && |hs| == |ts| <= |kids| == |entries|
    && forall k :: 0 <= k < |ts| ==>
      && ts[k] == ShapeText(w, hs[k], kids[k]) && ShapeRecorded(hs[k], kids[k])
      && (EndsAt(entries, ts, k) <==> ShapeEnds(w, hs[k], kids[k]))
  }

  lemma AreTextsNext(was: seq<array?<byte>>, now: seq<array?<byte>>, w: nat, hs: seq<Held>, kids: seq<Shape>,
                     ts: seq<seq<byte>>, h: Held)
    requires AreTexts(was, w, hs, kids, ts) && |ts| < |kids| == |now|
    requires var n := |ts|; now == was[n := now[n]] && now[n] != null && Printed(now[n], w, h, kids[n])
    ensures AreTexts(now, w, hs + [h], kids, ts + [ShapeText(w, h, kids[|ts|])])
  {
    hide Reads, ShapeText, ShapeRecorded, ShapeEnds;
    var n, hs', ts' := |ts|, hs + [h], ts + [ShapeText(w, h, kids[|ts|])];
    forall k | 0 <= k < |ts'|
      ensures ts'[k] == ShapeText(w, hs'[k], kids[k]) && ShapeRecorded(hs'[k], kids[k])
      ensures (EndsAt(now, ts', k) <==> ShapeEnds(w, hs'[k], kids[k]))
    {
      if k < n { assert EndsAt(now, ts', k) == EndsAt(was, ts, k); }
    }
  }

  lemma AreTextsAll(entries: seq<array?<byte>>, w: nat, hs: seq<Held>, kids: seq<Shape>, ts: seq<seq<byte>>)
    requires AreTexts(entries, w, hs, kids, ts) && |ts| == |kids|
    ensures ts == ItemTexts(w, hs, kids)
  {
    hide ShapeText, ShapeRecorded, ShapeEnds, ItemTexts;
  }

  ghost predicate AllOfThemEnd(w: nat, hs: seq<Held>, kids: seq<Shape>)
    requires |hs| <= |kids|
  {
    forall k :: 0 <= k < |hs| ==> AllEnd(w, hs[k], kids[k])
  }

  lemma OneMoreEnds(w: nat, hs: seq<Held>, kids: seq<Shape>, h: Held)
    requires |hs| < |kids|
    ensures AllOfThemEnd(w, hs + [h], kids) <==> AllOfThemEnd(w, hs, kids) && AllEnd(w, h, kids[|hs|])
  {
    hide AllEnd;
    var hs' := hs + [h];
    assert hs'[|hs|] == h;
    if AllOfThemEnd(w, hs', kids) {
      forall k | 0 <= k < |hs| ensures AllEnd(w, hs[k], kids[k]) { assert hs'[k] == hs[k]; }
    }
  }

  lemma PrintedList(w: nat, held: Held, sh: Shape)
    requires sh.typ % IS_REFERENCE in {TYPE_ARRAY, TYPE_OBJECT} && |held.kids| == |sh.kids|
    ensures ShapeInnerEnd(w, held, sh) <==> AllOfThemEnd(w, held.kids, sh.kids)
    ensures ShapeEnds(w, held, sh)
  {
  }

  lemma PrintedArray(out: array<byte>, entries: seq<array?<byte>>, w: nat, held: Held, sh: Shape, ts: seq<seq<byte>>)
    requires sh.typ % IS_REFERENCE == TYPE_ARRAY && AreTexts(entries, w, held.kids, sh.kids, ts) && |ts| == |sh.kids|
    requires CString(out, Bracketed(LBRACKET, ts, RBRACKET))
    ensures Printed(out, w, held, sh)
  {
    hide CString, Reads, ItemTexts;
    AreTextsAll(entries, w, held.kids, sh.kids, ts);
    PrintedList(w, held, sh);
    CStringReads(out, Bracketed(LBRACKET, ts, RBRACKET));
  }

  /** print_array */
  method PrintArrayItem(lib: Library, w: nat, item: Node, ghost sh: Shape) returns (out: array?<byte>, ghost held: Held)
    requires item == sh.node && Holds(sh) && CanPrint(sh) && sh.typ % IS_REFERENCE == TYPE_ARRAY
    modifies lib`live, lib`failures, lib`nullWrites, lib`overReads
    ensures out == null ==> lib.live == old(lib.live) && lib.failures > old(lib.failures)
    ensures out != null ==> fresh(out) && lib.live == old(lib.live) + {out} && lib.failures == old(lib.failures)
    ensures out != null ==> Printed(out, w, held, sh)
    ensures lib.overReads >= old(lib.overReads)
    ensures (out != null ==> (lib.overReads == old(lib.overReads) <==> ShapeInnerEnd(w, held, sh)))
    ensures Accounted(HasNumber(sh), old(lib.failures), lib.failures, old(lib.nullWrites), lib.nullWrites)
    decreases sh, 1
  {
    hide Holds, HoldsAll, ItemTexts, CString, NodesAll, BlocksAll, Filled, Pointees, Distinct, Join, AreTexts;
    hide ShapeText, Printed, AllOfThemEnd, ShapeInnerEnd, ShapeEnds, Terminated;
    FieldsOf(sh);
    held := NOTHING;
    ghost var kids := sh.kids;
    var numentries := CountList(item.child, kids);
    if numentries == 0 {
      out := StrdupLiteral(lib, [LBRACKET, RBRACKET]);
      if out != null { EmptyArray(out, w, sh); }
      return;
    }
    assert allocated(NodesAll(kids)) && allocated(BlocksAll(kids)) && HoldsAll(kids);
    var entries := lib.MallocPointers(numentries);
    if entries == null { return null, NOTHING; }
    var fail, len;
    ghost var hs, ts;
    fail, len, hs, ts := CollectItems(lib, w, item.child, entries, kids);
    NumberBelow(sh);
    out := null;
    if !fail { out := lib.Malloc(len); }
    if out == null {
      FreeEntries(lib, entries);
      lib.Free(entries);
      return null, NOTHING;
    }
    JoinLength(ts, RBRACKET);
    FilledNulFree(entries[..], ts, RBRACKET);
    held := Held([], [], hs);
    PrintedList(w, held, sh);
    TextsEnd(entries[..], w, hs, kids, ts);
    ComposeArray(lib, out, entries, ts);
    PrintedArray(out, entries[..], w, held, sh, ts);
    lib.Free(entries);
  }

  lemma EmptyArray(out: array<byte>, w: nat, sh: Shape)
    requires sh.typ % IS_REFERENCE == TYPE_ARRAY && sh.kids == [] && CString(out, [LBRACKET, RBRACKET])
    ensures Printed(out, w, NOTHING, sh) && ShapeInnerEnd(w, NOTHING, sh)
  {
    hide CString, Reads;
    assert Bracketed(LBRACKET, ItemTexts(w, [], sh.kids), RBRACKET) == [LBRACKET, RBRACKET];
    CStringReads(out, [LBRACKET, RBRACKET]);
  }

  lemma NumberBelow(sh: Shape)
    requires sh.typ % IS_REFERENCE in {TYPE_ARRAY, TYPE_OBJECT}
    ensures HasNumber(sh) <==> HaveNumber(sh.kids)
  {
  }

  lemma TextsEnd(entries: seq<array?<byte>>, w: nat, hs: seq<Held>, kids: seq<Shape>, ts: seq<seq<byte>>)
    requires AreTexts(entries, w, hs, kids, ts)
    ensures |ts| <= |entries| && |hs| <= |kids| && (AllOfThemEnd(w, hs, kids) ==> Terminated(entries, ts))
  {
    hide ShapeText, ShapeRecorded, ShapeEnds;
  }

  lemma FilledNulFree(entries: seq<array?<byte>>, ts: seq<seq<byte>>, close: byte)
    requires Filled(entries, ts) && |ts| > 0 && close != 0
    ensures NulFree(Join(ts, close))
  {
    hide Join;
    JoinNulFree(ts, close);
  }

  /** The loop of print_array that prints the children, up to the first failure. */
  method CollectItems(lib: Library, w: nat, first: Node?, entries: array<array?<byte>>, ghost kids: seq<Shape>)
    returns (fail: bool, len: nat, ghost hs: seq<Held>, ghost ts: seq<seq<byte>>)
    requires first == First(kids) && HoldsAll(kids) && forall i :: 0 <= i < |kids| ==> CanPrint(kids[i])
    requires entries.Length == |kids| && forall k :: 0 <= k < entries.Length ==> entries[k] == null
    modifies lib`live, lib`failures, lib`nullWrites, lib`overReads, entries
    ensures Distinct(entries[..]) && fresh(Pointees(entries[..], 0))
    ensures lib.live == old(lib.live) + Pointees(entries[..], 0)
    ensures if fail then lib.failures > old(lib.failures) else lib.failures == old(lib.failures)
    ensures Accounted(HaveNumber(kids), old(lib.failures), lib.failures, old(lib.nullWrites), lib.nullWrites)
    ensures !fail ==> |ts| == |hs| == |kids| && Filled(entries[..], ts) && AreTexts(entries[..], w, hs, kids, ts)
    ensures !fail ==> len == 5 + Total(ts) + 2 * |kids|
    ensures lib.overReads >= old(lib.overReads)
    ensures (!fail ==> (lib.overReads == old(lib.overReads) <==> AllOfThemEnd(w, hs, kids)))
    decreases kids, 0
  {
    hide Holds, HoldsAll, CString, NodesAll, BlocksAll, ShapeText, CanPrint, Pointees, Distinct, Total, ItemTexts;
    hide Filled, AreTexts, AllOfThemEnd, AllEnd, HasNumber, ShapeRecorded, ShapeEnds, ShapeInnerEnd, Reads;
    var child, i := first, 0;
    fail, len, hs, ts := false, 5, [], [];
    NothingFilled(entries[..]);
    NoTexts(entries[..], w, kids);
    assert kids[0..] == kids;
    TotalOfNone(ts);
    while child != null && !fail
      invariant HoldsAll(kids) && i <= |kids| && child == First(kids[i..])
      invariant Distinct(entries[..]) && fresh(Pointees(entries[..], 0))
      invariant lib.live == old(lib.live) + Pointees(entries[..], 0)
      invariant forall k :: i <= k < entries.Length ==> entries[k] == null
      invariant if fail then lib.failures > old(lib.failures) else lib.failures == old(lib.failures)
      invariant Accounted(HaveNumber(kids), old(lib.failures), lib.failures, old(lib.nullWrites), lib.nullWrites)
      invariant !fail ==> |ts| == |hs| == i && Filled(entries[..], ts) && AreTexts(entries[..], w, hs, kids, ts)
      invariant !fail ==> len == 5 + Total(ts) + 2 * i
      invariant lib.overReads >= old(lib.overReads)
      invariant (!fail ==> (lib.overReads == old(lib.overReads) <==> AllOfThemEnd(w, hs, kids)))
      decreases |kids| - i
    {
      ListStep(kids, i);
      assert allocated(NodesAll(kids)) && allocated(BlocksAll(kids));
      assert HasNumber(kids[i]) ==> HaveNumber(kids);
      var ret;
      ghost var h;
      ret, h := PrintValue(lib, w, child, kids[i]);
      ghost var was, t := entries[..], ShapeText(w, h, kids[i]);
      entries[i] := ret;
      FillNext(was, entries[..], i);
      if ret != null {
        FilledNext(was, entries[..], ts, t);
        AreTextsNext(was, entries[..], w, hs, kids, ts, h);
        OneMoreEnds(w, hs, kids, h);
        AllEndIs(w, h, kids[i]);
        TotalAppend(ts, t);
        hs, ts := hs + [h], ts + [t];
        var l := TextLength(lib, ret, t);
        len := len + l + 2;
      } else {
        fail := true;
      }
      i := i + 1;
      child := child.next;
    }
  }

  lemma AllEndIs(w: nat, h: Held, sh: Shape)
    ensures AllEnd(w, h, sh) <==> ShapeEnds(w, h, sh) && ShapeInnerEnd(w, h, sh)
  {
  }

  lemma NoTexts(entries: seq<array?<byte>>, w: nat, kids: seq<Shape>)
    requires |entries| == |kids|
    ensures AreTexts(entries, w, [], kids, []) && AllOfThemEnd(w, [], kids)
  {
  }

  /** What is still to be composed when i texts have been copied. */
  function Rest(ts: seq<seq<byte>>, i: nat, close: byte): seq<byte>
    requires i <= |ts|
  {
    if i < |ts| then Join(ts[i..], close) else [close]
  }

  lemma RestStep(ts: seq<seq<byte>>, i: nat, close: byte)
    requires i < |ts|
    ensures Rest(ts, i, close) == ts[i] + ((if i + 1 == |ts| then [] else [COMMA]) + Rest(ts, i + 1, close))
    ensures |Rest(ts, i + 1, close)| > 0
  {
    JoinStep(ts, i, close);
    assert [] + [close] == [close];
  }

  lemma RestAll(ts: seq<seq<byte>>, close: byte)
    requires |ts| > 0
    ensures Rest(ts, 0, close) == Join(ts, close) && Rest(ts, |ts|, close) == [close]
  {
    assert ts[0..] == ts;
  }

  /** A comma, unless the entry was the last, and a terminator. */
  method Separator(out: array<byte>, ptr: nat, comma: bool) returns (end: nat)
    requires ptr + 1 < out.Length
    modifies out
    ensures end == ptr + (if comma then 1 else 0) && out[..end] == old(out[..ptr]) + if comma then [COMMA] else []
  {
    end := ptr;
    if comma {
      out[end] := COMMA;
      end := end + 1;
    }
    out[end] := 0;
  }

  /** The end of print_array: the texts are copied between the brackets and freed. */
  method ComposeArray(lib: Library, out: array<byte>, entries: array<array?<byte>>, ghost ts: seq<seq<byte>>)
    requires |ts| > 0 && entries.Length == |ts| && Filled(entries[..], ts) && Distinct(entries[..])
    requires Pointees(entries[..], 0) <= lib.live
    requires (forall k :: 0 <= k < entries.Length ==> entries[k] != out)
    requires |Bracketed(LBRACKET, ts, RBRACKET)| < out.Length
    requires NulFree(Bracketed(LBRACKET, ts, RBRACKET))
    modifies lib`live, lib`overReads, out
    ensures lib.live == old(lib.live) - Pointees(entries[..], 0) && CString(out, Bracketed(LBRACKET, ts, RBRACKET))
    ensures lib.overReads >= old(lib.overReads)
    ensures Terminated(entries[..], ts) ==> lib.overReads == old(lib.overReads)
  {
    hide CString, Join, Distinct, Pointees, Rest, Filled, Reads, Terminated;
    ghost var whole := Bracketed(LBRACKET, ts, RBRACKET);
    out[0] := LBRACKET;
    var ptr := 1;
    out[ptr] := 0;
    var i := 0;
    RestAll(ts, RBRACKET);
    while i < entries.Length
      invariant i <= entries.Length && 1 <= ptr && ptr + |Rest(ts, i, RBRACKET)| == |whole|
      invariant out[..ptr] + Rest(ts, i, RBRACKET) == whole
      invariant Filled(entries[..], ts) && Distinct(entries[..])
      invariant forall k :: 0 <= k < entries.Length ==> entries[k] != out
      invariant Pointees(entries[..], i) <= lib.live
      invariant lib.live == old(lib.live) - (Pointees(entries[..], 0) - Pointees(entries[..], i))
      invariant lib.overReads >= old(lib.overReads)
      invariant Terminated(entries[..], ts) ==> lib.overReads == old(lib.overReads)
    {
      RestStep(ts, i, RBRACKET);
      NextPointee(entries[..], i);
      FilledAt(entries[..], ts, i);
      ghost var done := out[..ptr];
      if Terminated(entries[..], ts) { TerminatedAt(entries[..], ts, i); }
      ptr := CopyText(lib, out, ptr, entries[i], ts[i]);
      ptr := Separator(out, ptr, i != entries.Length - 1);
      Progress(done, ts[i], if i + 1 == |ts| then [] else [COMMA], Rest(ts, i + 1, RBRACKET), out[..ptr], whole);
      lib.Free(entries[i]);
      i := i + 1;
    }
    NoPointees(entries[..], i);
    out[ptr] := RBRACKET;
    out[ptr + 1] := 0;
    Finished(out, ptr, whole);
  }

  /** strcpy, and strlen to get behind what was copied. */
  method CopyText(lib: Library, out: array<byte>, ptr: nat, src: array<byte>, ghost t: seq<byte>) returns (end: nat)
    requires Reads(src, t) && src != out && ptr + |t| < out.Length
    modifies out, lib`overReads
    ensures end == ptr + |t| && out[..end] == old(out[..ptr]) + t
    ensures lib.overReads >= old(lib.overReads) && (|t| < src.Length ==> lib.overReads == old(lib.overReads))
  {
    hide Reads;
    StrCpy(lib, out, ptr, src, t);
    var l := TextLength(lib, src, t);
    end := ptr + l;
    assert out[..end] == out[..ptr] + out[ptr..end];
  }

  lemma Progress(done: seq<byte>, t: seq<byte>, comma: seq<byte>, rest: seq<byte>, now: seq<byte>, whole: seq<byte>)
    requires done + (t + (comma + rest)) == whole && now == done + t + comma
    ensures now + rest == whole
  {
  }

  lemma Finished(out: array<byte>, ptr: nat, whole: seq<byte>)
    requires ptr + 1 < out.Length && out[..ptr] + [out[ptr]] == whole && out[ptr + 1] == 0 && NulFree(whole)
    ensures CString(out, whole)
  {
    assert out[..ptr + 1] == out[..ptr] + [out[ptr]];
  }

  // ---------- objects ----------

  /** The texts are those of the names of the first children, and each ends in its block. */
  ghost predicate AreNames(names: seq<array?<byte>>, w: nat, hs: seq<Held>, kids: seq<Shape>, ns: seq<seq<byte>>) {
    && |hs| == |ns| <= |kids| == |names|
    && forall k :: 0 <= k < |ns| ==>
      ns[k] == StrText(w, hs[k].name, kids[k].name) && StrRecorded(hs[k].name, kids[k].name) && EndsAt(names, ns, k)
  }

  lemma AreNamesNext(was: seq<array?<byte>>, now: seq<array?<byte>>, w: nat, hs: seq<Held>, kids: seq<Shape>,
                     ns: seq<seq<byte>>, h: Held)
    requires AreNames(was, w, hs, kids, ns) && |ns| < |kids| == |now|
    requires var n := |ns|;
      now == was[n := now[n]] && now[n] != null && CString(now[n], StrText(w, h.name, kids[n].name))
    requires StrRecorded(h.name, kids[|ns|].name)
    ensures AreNames(now, w, hs + [h], kids, ns + [StrText(w, h.name, kids[|ns|].name)])
  {
    hide StrText, StrRecorded;
    var n, hs', ns' := |ns|, hs + [h], ns + [StrText(w, h.name, kids[|ns|].name)];
    forall k | 0 <= k < |ns'|
      ensures ns'[k] == StrText(w, hs'[k].name, kids[k].name) && StrRecorded(hs'[k].name, kids[k].name)
      ensures EndsAt(now, ns', k)
    {
      if k < n { assert EndsAt(now, ns', k) == EndsAt(was, ns, k); }
    }
  }

  /** The texts of the members, from those of their names and values. */
  ghost function Pairs(ns: seq<seq<byte>>, vs: seq<seq<byte>>): (ts: seq<seq<byte>>)
    requires |ns| == |vs|
    ensures |ts| == |ns| && forall i :: 0 <= i < |ts| ==> ts[i] == Pair(ns[i], vs[i])
  {
    seq(|ns|, i requires 0 <= i < |ns| => Pair(ns[i], vs[i]))
  }

  lemma PairsAreMembers(names: seq<array?<byte>>, entries: seq<array?<byte>>, w: nat, hs: seq<Held>, kids: seq<Shape>,
                        ns: seq<seq<byte>>, vs: seq<seq<byte>>)
    requires AreNames(names, w, hs, kids, ns) && AreTexts(entries, w, hs, kids, vs) && |ns| == |kids|
    ensures Pairs(ns, vs) == MemberTexts(w, hs, kids)
  {
    hide StrText, ShapeText, ShapeRecorded, StrRecorded, ShapeEnds, MemberTexts, Pair;
  }

  lemma {:induction false} PairsTotal(ns: seq<seq<byte>>, vs: seq<seq<byte>>, ms: seq<seq<byte>>)
    requires |ns| == |vs| == |ms| && forall i :: 0 <= i < |ms| ==> ms[i] == Pair(ns[i], vs[i])
    ensures Total(ms) == Total(ns) + Total(vs) + |ms|
  {
    if |ms| > 0 {
      var k := |ms| - 1;
      PairsTotal(ns[..k], vs[..k], ms[..k]);
    }
  }

  lemma PairsNulFree(names: seq<array?<byte>>, entries: seq<array?<byte>>, ns: seq<seq<byte>>, vs: seq<seq<byte>>)
    requires Filled(names, ns) && Filled(entries, vs) && |ns| == |vs| > 0
    ensures NulFree(Bracketed(LBRACE, Pairs(ns, vs), RBRACE))
  {
    hide Join;
    forall i | 0 <= i < |ns|
      ensures NulFree(Pairs(ns, vs)[i])
    {
      FilledAt(names, ns, i);
      FilledAt(entries, vs, i);
    }
    JoinNulFree(Pairs(ns, vs), RBRACE);
  }

  lemma PrintedObject(out: array<byte>, names: seq<array?<byte>>, entries: seq<array?<byte>>, w: nat, held: Held,
                      sh: Shape, ns: seq<seq<byte>>, vs: seq<seq<byte>>)
    requires sh.typ % IS_REFERENCE == TYPE_OBJECT && |ns| == |vs| == |sh.kids|
    requires AreNames(names, w, held.kids, sh.kids, ns) && AreTexts(entries, w, held.kids, sh.kids, vs)
    requires CString(out, Bracketed(LBRACE, Pairs(ns, vs), RBRACE))
    ensures Printed(out, w, held, sh)
  {
    hide CString, Reads, MemberTexts, Pairs;
    PairsAreMembers(names, entries, w, held.kids, sh.kids, ns, vs);
    PrintedList(w, held, sh);
    CStringReads(out, Bracketed(LBRACE, Pairs(ns, vs), RBRACE));
  }

  /** print_object */
  method PrintObjectItem(lib: Library, w: nat, item: Node, ghost sh: Shape)
    returns (out: array?<byte>, ghost held: Held)
    requires item == sh.node && Holds(sh) && CanPrint(sh) && sh.typ % IS_REFERENCE == TYPE_OBJECT
    modifies lib`live, lib`failures, lib`nullWrites, lib`overReads
    ensures out == null ==> lib.live == old(lib.live) && lib.failures > old(lib.failures)
    ensures out != null ==> fresh(out) && lib.live == old(lib.live) + {out} && lib.failures == old(lib.failures)
    ensures out != null ==> Printed(out, w, held, sh)
    ensures lib.overReads >= old(lib.overReads)
    ensures (out != null ==> (lib.overReads == old(lib.overReads) <==> ShapeInnerEnd(w, held, sh)))
    ensures Accounted(HasNumber(sh), old(lib.failures), lib.failures, old(lib.nullWrites), lib.nullWrites)
    decreases sh, 1
  {
    hide Holds, HoldsAll, CString, NodesAll, BlocksAll, Printed, ShapeInnerEnd, HasNumber, HaveNumber;
    FieldsOf(sh);
    held := NOTHING;
    ghost var kids := sh.kids;
    var numentries := CountList(item.child, kids);
    if numentries == 0 {
      out := lib.Malloc(3);
      if out == null { return; }
      out[0], out[1], out[2] := LBRACE, RBRACE, 0;
      EmptyObject(out, w, sh);
      return;
    }
    NumberBelow(sh);
    assert allocated(NodesAll(kids)) && allocated(BlocksAll(kids)) && HoldsAll(kids);
    var entries := lib.MallocPointers(numentries);
    if entries == null { return null, NOTHING; }
    var names := lib.MallocPointers(numentries);
    if names == null {
      lib.Free(entries);
      return null, NOTHING;
    }
    out, held := BuildObject(lib, w, item.child, names, entries, sh);
  }

  lemma EmptyObject(out: array<byte>, w: nat, sh: Shape)
    requires sh.typ % IS_REFERENCE == TYPE_OBJECT && sh.kids == []
    requires out.Length == 3 && out[0] == LBRACE && out[1] == RBRACE && out[2] == 0
    ensures Printed(out, w, NOTHING, sh) && ShapeInnerEnd(w, NOTHING, sh)
  {
    assert Bracketed(LBRACE, MemberTexts(w, [], sh.kids), RBRACE) == [LBRACE, RBRACE];
  }

  /** The rest of print_object, for an object with members, once it has the arrays for their texts. */
  method BuildObject(lib: Library, w: nat, first: Node?, names: array<array?<byte>>, entries: array<array?<byte>>,
                     ghost sh: Shape)
    returns (out: array?<byte>, ghost held: Held)
    requires sh.typ % IS_REFERENCE == TYPE_OBJECT && CanPrint(sh) && first == First(sh.kids) && HoldsAll(sh.kids)
    requires |sh.kids| > 0
    requires names != entries && entries.Length == |sh.kids|
    requires forall k :: 0 <= k < entries.Length ==> entries[k] == null
    requires names.Length == |sh.kids| && forall k :: 0 <= k < names.Length ==> names[k] == null
    requires names in lib.live && entries in lib.live
    modifies lib`live, lib`failures, lib`nullWrites, lib`overReads, names, entries
    ensures out == null ==> lib.live == old(lib.live) - {names, entries} && lib.failures > old(lib.failures)
    ensures out != null ==>
      fresh(out) && lib.live == old(lib.live) - {names, entries} + {out} && lib.failures == old(lib.failures)
    ensures out != null ==> Printed(out, w, held, sh)
    ensures lib.overReads >= old(lib.overReads)
    ensures (out != null ==> (lib.overReads == old(lib.overReads) <==> ShapeInnerEnd(w, held, sh)))
    ensures Accounted(HaveNumber(sh.kids), old(lib.failures), lib.failures, old(lib.nullWrites), lib.nullWrites)
    decreases sh, 0
  {
    hide Holds, HoldsAll, CString, NodesAll, BlocksAll, Filled, Both, BothDistinct, Join, Pair, Pairs, Total;
    hide AreNames, AreTexts, AllOfThemEnd, ShapeInnerEnd, ShapeEnds, Printed, HaveNumber, Terminated;
    held := NOTHING;
    ghost var kids := sh.kids;
    var fail, len;
    ghost var hs, ns, vs;
    fail, len, hs, ns, vs := CollectMembers(lib, w, first, names, entries, kids);
    out := null;
    if !fail { out := lib.Malloc(len); }
    if out == null {
      FreeAll(lib, names, entries);
      lib.Free(names);
      lib.Free(entries);
      return null, NOTHING;
    }
    ghost var ts := Pairs(ns, vs);
    held := Held([], [], hs);
    JoinLength(ts, RBRACE);
    PairsTotal(ns, vs, ts);
    PairsNulFree(names[..], entries[..], ns, vs);
    PrintedList(w, held, sh);
    TextsEnd(entries[..], w, hs, kids, vs);
    NamesEnd(names[..], w, hs, kids, ns);
    ComposeObject(lib, out, names, entries, ns, vs);
    PrintedObject(out, names[..], entries[..], w, held, sh, ns, vs);
    lib.Free(names);
    lib.Free(entries);
  }

  lemma NamesEnd(names: seq<array?<byte>>, w: nat, hs: seq<Held>, kids: seq<Shape>, ns: seq<seq<byte>>)
    requires AreNames(names, w, hs, kids, ns)
    ensures |ns| <= |names| && Terminated(names, ns)
  {
    hide StrText, StrRecorded;
  }

  /** The name and the value of one member; the value is printed even if the name could not be. */
  method PrintMember(lib: Library, w: nat, child: Node, ghost kid: Shape)
    returns (str: array?<byte>, ret: array?<byte>, ghost held: Held)
    requires child == kid.node && Holds(kid) && CanPrint(kid)
    modifies lib`live, lib`failures, lib`nullWrites, lib`overReads
    ensures if str == null || ret == null then lib.failures > old(lib.failures) else lib.failures == old(lib.failures)
    ensures Accounted(HasNumber(kid), old(lib.failures), lib.failures, old(lib.nullWrites), lib.nullWrites)
    ensures str != null ==> fresh(str) && str != ret
    ensures ret != null ==> fresh(ret)
    ensures str != null && ret != null ==>
      CString(str, StrText(w, held.name, kid.name)) && StrRecorded(held.name, kid.name) && Printed(ret, w, held, kid)
    ensures lib.live == old(lib.live) + BlockSet(str) + BlockSet(ret)
    ensures lib.overReads >= old(lib.overReads)
    ensures (ret != null ==> (lib.overReads == old(lib.overReads) <==> ShapeInnerEnd(w, held, kid)))
    decreases kid, 3
  {
    hide Holds, CString, StrText, CanPrint, NodesAll, Blocks, ShapeText, ShapeRecorded, ShapeEnds, ShapeInnerEnd;
    hide StrRecorded, HasNumber, Reads;
    FieldsOf(kid);
    assert allocated(NodesAll(kid.kids)) && allocated(Blocks(kid));
    ghost var bytes;
    str, bytes := PrintStringPtr(lib, w, child.name, kid.name);
    ret, held := PrintValue(lib, w, child, kid);
    OtherName(w, held, bytes, kid);
    held := held.(name := bytes);
  }

  /** What the loop of print_object knows after i members. */
  ghost predicate Collected(names: seq<array?<byte>>, entries: seq<array?<byte>>, i: nat, w: nat, hs: seq<Held>,
                            kids: seq<Shape>,
                            ns: seq<seq<byte>>, vs: seq<seq<byte>>, fail: bool, len: nat)
    reads set k | 0 <= k < |names| && names[k] != null :: names[k]
    reads set k | 0 <= k < |entries| && entries[k] != null :: entries[k]
  {
    && i <= |names| == |entries| == |kids| && BothDistinct(names, entries)
    && (forall k :: i <= k < |names| ==> names[k] == null && entries[k] == null)
    && (!fail ==> |ns| == |vs| == |hs| == i && Filled(names, ns) && Filled(entries, vs))
    && (!fail ==> len == 7 + Total(ns) + Total(vs) + 2 * i)
    && (!fail ==> AreNames(names, w, hs, kids, ns) && AreTexts(entries, w, hs, kids, vs))
  }

  /** One more member. */
  lemma CollectedNext(names: seq<array?<byte>>, entries: seq<array?<byte>>, i: nat, w: nat, hs: seq<Held>,
                      kids: seq<Shape>,
                      ns: seq<seq<byte>>, vs: seq<seq<byte>>, fail: bool, len: nat,
                      str: array?<byte>, ret: array?<byte>, h: Held, fail': bool, len': nat)
    requires Collected(names, entries, i, w, hs, kids, ns, vs, fail, len) && i < |names|
    requires str == null || (str !in Both(names, entries, 0) && str != ret)
    requires ret == null || ret !in Both(names, entries, 0)
    requires str != null && ret != null ==>
      CString(str, StrText(w, h.name, kids[i].name)) && StrRecorded(h.name, kids[i].name) && Printed(ret, w, h, kids[i])
    requires fail' == (fail || str == null || ret == null)
    requires !fail' ==> len' == len + |StrText(w, h.name, kids[i].name)| + |ShapeText(w, h, kids[i])| + 2
    ensures Collected(names[i := str], entries[i := ret], i + 1, w, hs + [h], kids,
                      ns + [StrText(w, h.name, kids[i].name)],
                      vs + [ShapeText(w, h, kids[i])], fail', len')
    ensures Both(names[i := str], entries[i := ret], 0) == Both(names, entries, 0) + BlockSet(str) + BlockSet(ret)
  {
    hide CString, Total, Distinct, Pointees, Filled, StrText, ShapeText, ShapeRecorded, ShapeEnds, StrRecorded, Reads;
    hide AreNames, AreTexts;
    FillNext(names, names[i := str], i);
    FillNext(entries, entries[i := ret], i);
    if !fail' {
      var n, v := StrText(w, h.name, kids[i].name), ShapeText(w, h, kids[i]);
      CStringReads(str, n);
      FilledNext(names, names[i := str], ns, n);
      FilledNext(entries, entries[i := ret], vs, v);
      AreNamesNext(names, names[i := str], w, hs, kids, ns, h);
      AreTextsNext(entries, entries[i := ret], w, hs, kids, vs, h);
      TotalAppend(ns, n);
      TotalAppend(vs, v);
    }
  }

  lemma CollectedNone(names: seq<array?<byte>>, entries: seq<array?<byte>>, w: nat, kids: seq<Shape>)
    requires |names| == |entries| == |kids| && forall k :: 0 <= k < |names| ==> names[k] == null && entries[k] == null
    ensures Collected(names, entries, 0, w, [], kids, [], [], false, 7) && Both(names, entries, 0) == {}
    ensures AllOfThemEnd(w, [], kids)
  {
    hide Reads;
  }

  lemma CollectedAll(names: seq<array?<byte>>, entries: seq<array?<byte>>, w: nat, hs: seq<Held>, kids: seq<Shape>,
                     ns: seq<seq<byte>>, vs: seq<seq<byte>>, fail: bool, len: nat)
    requires Collected(names, entries, |kids|, w, hs, kids, ns, vs, fail, len)
    ensures BothDistinct(names, entries) && |names| == |entries| == |kids|
    ensures !fail ==>
      && |ns| == |vs| == |hs| == |kids| && Filled(names, ns) && Filled(entries, vs)
      && len == 7 + Total(ns) + Total(vs) + 2 * |kids|
    ensures !fail ==> AreNames(names, w, hs, kids, ns) && AreTexts(entries, w, hs, kids, vs)
  {
    hide Pointees, Distinct, Filled, Total, AreNames, AreTexts;
  }

  /** The loop of print_object that prints names and children; it goes on after a failure. */
  method CollectMembers(lib: Library, w: nat, first: Node?, names: array<array?<byte>>, entries: array<array?<byte>>,
                        ghost kids: seq<Shape>)
    returns (fail: bool, len: nat, ghost hs: seq<Held>, ghost ns: seq<seq<byte>>, ghost vs: seq<seq<byte>>)
    requires first == First(kids) && HoldsAll(kids) && forall i :: 0 <= i < |kids| ==> CanPrint(kids[i])
    requires names != entries && entries.Length == |kids| && forall k :: 0 <= k < entries.Length ==> entries[k] == null
    requires names.Length == |kids| && forall k :: 0 <= k < names.Length ==> names[k] == null
    modifies lib`live, lib`failures, lib`nullWrites, lib`overReads, names, entries
    ensures BothDistinct(names[..], entries[..])
    ensures fresh(Both(names[..], entries[..], 0)) && lib.live == old(lib.live) + Both(names[..], entries[..], 0)
    ensures if fail then lib.failures > old(lib.failures) else lib.failures == old(lib.failures)
    ensures Accounted(HaveNumber(kids), old(lib.failures), lib.failures, old(lib.nullWrites), lib.nullWrites)
    ensures !fail ==> |ns| == |vs| == |hs| == |kids| && Filled(names[..], ns) && Filled(entries[..], vs)
    ensures !fail ==> AreNames(names[..], w, hs, kids, ns) && AreTexts(entries[..], w, hs, kids, vs)
    ensures !fail ==> len == 7 + Total(ns) + Total(vs) + 2 * |kids|
    ensures lib.overReads >= old(lib.overReads)
    ensures (!fail ==> (lib.overReads == old(lib.overReads) <==> AllOfThemEnd(w, hs, kids)))
    decreases kids, 0
  {
    hide Holds, HoldsAll, CString, NodesAll, BlocksAll, ShapeText, StrText, CanPrint, Both, BothDistinct, Collected;
    hide AllOfThemEnd, AllEnd, HasNumber, ShapeRecorded, ShapeEnds, ShapeInnerEnd, StrRecorded, Reads, Filled;
    hide AreNames, AreTexts, Total;
    var child, i := first, 0;
    fail, len, hs, ns, vs := false, 7, [], [], [];
    CollectedNone(names[..], entries[..], w, kids);
    assert kids[0..] == kids;
    while child != null
      invariant HoldsAll(kids) && i <= |kids| && child == First(kids[i..]) && |hs| == i
      invariant Collected(names[..], entries[..], i, w, hs, kids, ns, vs, fail, len)
      invariant fresh(Both(names[..], entries[..], 0)) && lib.live == old(lib.live) + Both(names[..], entries[..], 0)
      invariant if fail then lib.failures > old(lib.failures) else lib.failures == old(lib.failures)
      invariant Accounted(HaveNumber(kids), old(lib.failures), lib.failures, old(lib.nullWrites), lib.nullWrites)
      invariant lib.overReads >= old(lib.overReads)
      invariant (!fail ==> (lib.overReads == old(lib.overReads) <==> AllOfThemEnd(w, hs, kids)))
      decreases |kids| - i
    {
      ListStep(kids, i);
      assert allocated(NodesAll(kids)) && allocated(BlocksAll(kids)) && allocated(Both(names[..], entries[..], 0));
      assert HasNumber(kids[i]) ==> HaveNumber(kids);
      ghost var h, was := NOTHING, Both(names[..], entries[..], 0);
      fail, len, h := CollectMember(lib, w, child, i, names, entries, fail, len, hs, kids, ns, vs);
      assert Both(names[..], entries[..], 0) == was + (Both(names[..], entries[..], 0) - was);
      OneMoreEnds(w, hs, kids, h);
      hs, ns, vs := hs + [h], ns + [StrText(w, h.name, kids[i].name)], vs + [ShapeText(w, h, kids[i])];
      i := i + 1;
      child := child.next;
    }
    CollectedAll(names[..], entries[..], w, hs, kids, ns, vs, fail, len);
  }

  /** One turn of that loop. */
  method CollectMember(lib: Library, w: nat, child: Node, i: nat, names: array<array?<byte>>,
                       entries: array<array?<byte>>, failed: bool, length: nat,
                       ghost hs: seq<Held>, ghost kids: seq<Shape>, ghost ns: seq<seq<byte>>, ghost vs: seq<seq<byte>>)
    returns (fail: bool, len: nat, ghost h: Held)
    requires i < |kids| == names.Length == entries.Length && names != entries
    requires child == kids[i].node && Holds(kids[i]) && CanPrint(kids[i])
    requires Collected(names[..], entries[..], i, w, hs, kids, ns, vs, failed, length)
    modifies lib`live, lib`failures, lib`nullWrites, lib`overReads, names, entries
    ensures Collected(names[..], entries[..], i + 1, w, hs + [h], kids, ns + [StrText(w, h.name, kids[i].name)],
      vs + [ShapeText(w, h, kids[i])], fail, len)
    ensures var was, now := old(Both(names[..], entries[..], 0)), Both(names[..], entries[..], 0);
      was <= now && fresh(now - was) && lib.live == old(lib.live) + (now - was)
    ensures lib.failures >= old(lib.failures) && (fail <==> failed || lib.failures > old(lib.failures))
    ensures Accounted(HasNumber(kids[i]), old(lib.failures), lib.failures, old(lib.nullWrites), lib.nullWrites)
    ensures lib.overReads >= old(lib.overReads)
    ensures (!fail ==> (lib.overReads == old(lib.overReads) <==> AllEnd(w, h, kids[i])))
    decreases kids[i], 4
  {
    hide Holds, CString, NodesAll, BlocksAll, ShapeText, StrText, CanPrint, Both, BothDistinct, Collected, AllEnd;
    hide HasNumber, ShapeRecorded, ShapeEnds, ShapeInnerEnd, StrRecorded, Reads;
    fail, len := failed, length;
    ghost var wasNames, wasEntries := names[..], entries[..];
    assert allocated(Both(wasNames, wasEntries, 0));
    var str, ret;
    str, ret, h := PrintMember(lib, w, child, kids[i]);
    names[i] := str;
    entries[i] := ret;
    if str != null && ret != null {
      var l := PairLength(lib, str, ret, StrText(w, h.name, kids[i].name), ShapeText(w, h, kids[i]));
      len := len + l + 2;
      AllEndIs(w, h, kids[i]);
    } else {
      fail := true;
    }
    CollectedNext(wasNames, wasEntries, i, w, hs, kids, ns, vs, failed, length, str, ret, h, fail, len);
  }

  /** The lengths of a name and a value. */
  method PairLength(lib: Library, str: array<byte>, ret: array<byte>, ghost n: seq<byte>, ghost v: seq<byte>)
    returns (len: nat)
    requires CString(str, n) && Reads(ret, v)
    modifies lib`overReads
    ensures len == |v| + |n| && lib.overReads == old(lib.overReads) + if |v| < ret.Length then 0 else 1
  {
    CStringReads(str, n);
    var l := TextLength(lib, ret, v);
    var m := TextLength(lib, str, n);
    len := l + m;
  }

  /** The end of print_object: names and values are copied between the braces and freed. */
  method ComposeObject(lib: Library, out: array<byte>, names: array<array?<byte>>, entries: array<array?<byte>>,
                       ghost ns: seq<seq<byte>>, ghost vs: seq<seq<byte>>)
    requires |ns| == |vs| == names.Length == entries.Length > 0 && Filled(names[..], ns) && Filled(entries[..], vs)
    requires BothDistinct(names[..], entries[..]) && Both(names[..], entries[..], 0) <= lib.live
    requires forall k :: 0 <= k < |ns| ==> names[k] != out && entries[k] != out
    requires var text := Bracketed(LBRACE, Pairs(ns, vs), RBRACE); |text| < out.Length && NulFree(text)
    modifies lib`live, lib`overReads, out
    ensures lib.live == old(lib.live) - Both(names[..], entries[..], 0)
    ensures CString(out, Bracketed(LBRACE, Pairs(ns, vs), RBRACE))
    ensures lib.overReads >= old(lib.overReads)
    ensures Terminated(names[..], ns) && Terminated(entries[..], vs) ==> lib.overReads == old(lib.overReads)
  {
    hide CString, Join, Both, BothDistinct, Rest, Filled, Pair, Pairs, Reads, Terminated;
    ghost var ts := Pairs(ns, vs);
    ghost var whole := Bracketed(LBRACE, ts, RBRACE);
    out[0] := LBRACE;
    var ptr := 1;
    out[ptr] := 0;
    var i := 0;
    RestAll(ts, RBRACE);
    while i < entries.Length
      invariant i <= entries.Length && 1 <= ptr && ptr + |Rest(ts, i, RBRACE)| == |whole|
      invariant out[..ptr] + Rest(ts, i, RBRACE) == whole
      invariant Filled(names[..], ns) && Filled(entries[..], vs)
      invariant forall k :: 0 <= k < |ns| ==> names[k] != out && entries[k] != out
      invariant Both(names[..], entries[..], i) <= lib.live
      invariant lib.live == old(lib.live) - (Both(names[..], entries[..], 0) - Both(names[..], entries[..], i))
      invariant lib.overReads >= old(lib.overReads)
      invariant Terminated(names[..], ns) && Terminated(entries[..], vs) ==> lib.overReads == old(lib.overReads)
    {
      RestStep(ts, i, RBRACE);
      NextOfBoth(names[..], entries[..], i);
      FilledAt(names[..], ns, i);
      FilledAt(entries[..], vs, i);
      ghost var done := out[..ptr];
      if Terminated(names[..], ns) && Terminated(entries[..], vs) {
        TerminatedAt(names[..], ns, i);
        TerminatedAt(entries[..], vs, i);
      }
      ptr := CopyPair(lib, out, ptr, names[i], entries[i], i != entries.Length - 1, ns[i], vs[i]);
      Progress(done, ts[i], if i + 1 == |ts| then [] else [COMMA], Rest(ts, i + 1, RBRACE), out[..ptr], whole);
      lib.Free(names[i]);
      lib.Free(entries[i]);
      i := i + 1;
    }
    NothingOfBoth(names[..], entries[..]);
    out[ptr] := RBRACE;
    out[ptr + 1] := 0;
    Finished(out, ptr, whole);
  }

  /** A name, a colon and a value, and a comma unless they are the last. */
  method CopyPair(lib: Library, out: array<byte>, ptr: nat, name: array<byte>, value: array<byte>, comma: bool,
                  ghost n: seq<byte>, ghost v: seq<byte>)
    returns (end: nat)
    requires Reads(name, n) && Reads(value, v) && name != out && value != out && ptr + |Pair(n, v)| + 1 < out.Length
    modifies out, lib`overReads
    ensures end == ptr + |Pair(n, v)| + if comma then 1 else 0
    ensures out[..end] == old(out[..ptr]) + Pair(n, v) + if comma then [COMMA] else []
    ensures lib.overReads >= old(lib.overReads)
    ensures (|n| < name.Length && |v| < value.Length ==> lib.overReads == old(lib.overReads))
  {
    hide Reads;
    ghost var done := out[..ptr];
    end := CopyText(lib, out, ptr, name, n);
    out[end] := COLON;
    end := end + 1;
    assert out[..end] == done + n + [COLON];
    end := CopyText(lib, out, end, value, v);
    assert done + n + [COLON] + v == done + (n + ([COLON] + v));
    end := Separator(out, end, comma);
  }
}
