/**
 The two ends of the wire as code: the GET command of one device replies with the text of its items, and the
 shell of another takes it over when it comes as a SET.
 */
module Transfer {
  import opened Bytes
  import opened CText
  import opened Json
  import opened JsonParse
  import opened JsonPrint
  import opened PrintExact
  import opened JsonShell
  import opened Heap
  import opened Tree
  import opened Links
  import opened Lifetime
  import opened Printer
  import opened HeapRoundTrip
  import opened Storage
  import opened Config
  import opened Settings
  import opened Wire

  // ---------- the sending side ----------

  /** What GET builds can be printed, even if it could not be finished. */
  lemma ItemsCanBePrinted(sh: Shape, ints: seq<int32>)
    requires NAMED <= |ints| && sh.typ == TYPE_OBJECT
    requires forall k :: 0 <= k < |sh.kids| ==> FromItems(sh.kids[k], ints)
    ensures CanPrint(sh)
    ensures DatabaseItems(sh.kids, ints, NAMED) ==> HeapRoundTrip.Named(sh)
  {
    hide NameString, DecimalText;
    forall k | 0 <= k < |sh.kids|
      ensures CanPrint(sh.kids[k]) && IsCText(sh.kids[k].name) && HeapRoundTrip.Named(sh.kids[k])
    {
      var i :| 0 <= i < NAMED && IsItemNode(sh.kids[k], i, ints[i]);
      NameNulFree(i);
    }
  }

  /** An answer that is there has all its names. */
  lemma {:induction false} AnswerIsNamed(dbObject: Node?, sh: Shape, s: Option<seq<byte>>, ints: seq<int32>)
    requires NAMED <= |ints| && sh.typ == TYPE_OBJECT && forall k :: 0 <= k < |sh.kids| ==> FromItems(sh.kids[k], ints)
    requires IsAnswer(dbObject, Some(sh), AnswerOf(s, ints), ints) && AnswerOf(s, ints).Some?
    ensures HeapRoundTrip.Named(sh)
  {
    hide ParseText, ConfigValue, DatabaseItems;
    ItemsCanBePrinted(sh, ints);
    if Abs(sh) == Object([]) {
      ObjectMembers(sh);
    }
  }

  /** What a GET answers, with or without an argument. */
  function AnswerOf(s: Option<seq<byte>>, ints: seq<int32>): Option<Value>
    requires NAMED <= |ints|
  {
    if s.None? then Some(Object([])) else Answer(s.value, ints)
  }

  /**
   cmd_get. The reply is the text of the answer, or ERROR where there is none; and then a null pointer is given to
   chHeapFree. Everything is given back but the parsed request, which stays allocated whenever there is one.
   */
  method CmdGet(lib: Library, w: nat, db: Database, jstring: array?<byte>, ghost s: Option<seq<byte>>)
    returns (reply: Option<seq<byte>>, fault: bool, nullFree: bool, ghost held: Held, ghost lost: set<object>)
    requires db.Valid()
    requires s.None? ==> jstring == null
    requires s.Some? ==> jstring != null && CString(jstring, s.value) && !ParseText(s.value, false).OutOfBounds?
    modifies lib`ep, lib`live, lib`failures, lib`nullWrites, lib`overReads
    ensures lib.failures >= old(lib.failures) && lib.overReads >= old(lib.overReads)
    ensures lib.live == old(lib.live) + lost && fresh(lost)
    ensures lost != {} ==> s.Some? && ParseText(s.value, false).Done?
    ensures s.Some? && ParseText(s.value, false).Done? && lib.failures == old(lib.failures) ==> lost != {}
    ensures fault ==> s.Some? && NoSubCommand(s.value)
    ensures s.Some? && NoSubCommand(s.value) && lib.failures == old(lib.failures) ==> fault
    ensures !fault ==> (nullFree <==> reply.None?)
    ensures lib.failures == old(lib.failures) && !fault ==>
      if AnswerOf(s, db.ints[..]).None? then reply == None
      else var v := AnswerOf(s, db.ints[..]).value;
        && reply == Some(Print(w, held, v)) && Recorded(held, v)
        && (lib.overReads == old(lib.overReads) <==> InnerEnd(w, held, v))
  {
    hide ParseText, CString, ConfigValue, Print, Abs, DatabaseItems, CanPrint, HeapRoundTrip.Named, Nodes, Blocks;
    hide Separate, Holds, ShapeText, FromItems;
    hide Reads, Printed, Recorded, InnerEnd, HasNumber, AnswerTo, Room, ShapeRecorded, ShapeEnds, ShapeInnerEnd;
    hide DeletableAll, OwnedOnceAll, OwnedAll, IsAnswer, NoSubCommand, Answer;
    reply, nullFree, held := None, false, NOTHING;
    var dbObject, out;
    ghost var tree;
    ghost var ints := db.ints[..];
    dbObject, fault, tree, lost := GetJson(lib, db, jstring, if s.None? then [] else s.value);
    if fault { return; }
    if dbObject != null {
      ItemsCanBePrinted(tree.value, ints);
      if lib.failures == old(lib.failures) {
        AnswerIs(dbObject, tree, s, ints);
        AnswerIsNamed(dbObject, tree.value, s, ints);
      }
    } else if lib.failures == old(lib.failures) {
      AnswerIs(dbObject, tree, s, ints);
    }
    assert dbObject != null ==>
      allocated(Nodes(tree.value)) && allocated(Blocks(tree.value)) && IsRoot(dbObject, tree.value);
    out, held := PrintUnformatted(lib, w, dbObject, if dbObject == null then None else tree);
    if out == null {
      nullFree := true;
    } else {
      PrintedObjectIsText(out, w, held, tree.value);
      var t := ReadString(out, 0, ShapeText(w, held, tree.value));
      if lib.failures == old(lib.failures) { TextIsPrint(w, held, tree.value); }
      reply := Some(t);
      lib.Free(out);
    }
    DeleteAnswer(lib, dbObject, tree);
  }

  lemma AnswerIs(dbObject: Node?, tree: Option<Shape>, s: Option<seq<byte>>, ints: seq<int32>)
    requires NAMED <= |ints|
    requires IsAnswer(dbObject, tree, if s.None? then Some(Object([])) else Answer(s.value, ints), ints)
    ensures IsAnswer(dbObject, tree, AnswerOf(s, ints), ints)
    ensures dbObject == null <==> AnswerOf(s, ints).None?
    ensures dbObject != null ==> tree.Some? && AnswerOf(s, ints) == Some(Abs(tree.value))
  {
    hide Abs, Answer;
  }

  /** The text of an object ends in its block. */
  lemma PrintedObjectIsText(out: array<byte>, w: nat, held: Held, sh: Shape)
    requires sh.typ == TYPE_OBJECT && Printed(out, w, held, sh)
    ensures TextAt(out, 0, ShapeText(w, held, sh))
  {
    hide ShapeText, ShapeRecorded, Reads;
    CStringReads(out, ShapeText(w, held, sh));
    CStringIsText(out, ShapeText(w, held, sh));
  }

  /** cJSON_Delete of what was sent, which may be null. */
  method DeleteAnswer(lib: Library, dbObject: Node?, ghost tree: Option<Shape>)
    requires dbObject != null ==> tree.Some? && IsRoot(dbObject, tree.value) && Foot(tree.value) <= lib.live
    modifies lib`live
    ensures lib.live == old(lib.live) - if dbObject == null then {} else Foot(tree.value)
  {
    hide Nodes, Blocks, Separate, Holds, DeletableAll, OwnedOnceAll, OwnedAll;
    if dbObject != null { RootIsOwned(tree.value); } else { Edit.NothingOwned(); }
    Delete(lib, dbObject, if dbObject == null then [] else [tree.value]);
  }

  /** The request for the items. */
  const GET_CONFIG: seq<byte> := [QUOTE] + (Ascii(CONFIG) + [QUOTE])

  lemma ConfigIsAskedFor(ints: seq<int32>)
    requires NAMED <= |ints|
    ensures NulFree(GET_CONFIG) && ParseText(GET_CONFIG, false).Done? && !NoSubCommand(GET_CONFIG)
    ensures AnswerOf(Some(GET_CONFIG), ints) == Some(ConfigValue(ints))
  {
    hide ParseValue, ConfigValue, PrintString;
    var name := Ascii(CONFIG);
    PlainNameIsQuoted(5, [], name);
    assert GET_CONFIG[0..|GET_CONFIG|] == GET_CONFIG;
    RoundTripAt(5, NOTHING, String(name), GET_CONFIG, 0, |GET_CONFIG|);
    VisibleStart(GET_CONFIG);
  }

  // ---------- the receiving side ----------

  /** What becomes of one line of a stream, where only SET is carried out. */
  datatype Outcome = Reset | NoWord | OtherCommand | Undefined | Faulted | Answered(ret: nat)

  /** C does not define what the SET does that comes first. */
  predicate IsUndefined(stream: seq<byte>, size: nat) {
    var a := SetArgument(stream, size);
    a.Some? && !Settable(a.value)
  }

  /**
   One turn of json_thread, for a SET: a line is read off the stream, split, and carried out. The model stops before
   a SET that C does not define, and at one that faults.
   */
  method ReceiveSet(lib: Library, db: Database, chp: ByteStream, line: array<byte>)
    returns (outcome: Outcome, ghost lost: set<object>)
    requires db.Valid() && line.Length > 0 && chp.pos <= |chp.input|
    modifies lib`ep, lib`live, lib`failures, db.ints, chp`pos, line
    ensures chp.pos <= |chp.input| && lib.failures >= old(lib.failures)
    ensures lib.live == old(lib.live) + lost && fresh(lost) && (outcome.Faulted? <==> lost != {})
    ensures outcome.Undefined? <==> IsUndefined(old(chp.Pending()), line.Length)
    ensures outcome != Answered(0) ==> db.ints[..] == old(db.ints[..])
    ensures lib.failures == old(lib.failures) && !outcome.Undefined? ==>
      db.ints[..] == Received(old(chp.Pending()), line.Length, old(db.ints[..]))
  {
    hide LineOf, Split, UpToNul, Settable, AllKnown, InRange, TextAt, CallOf, ItemsAfter, ParseText, RunsFit;
    hide Nameless, CString;
    lost := {};
    ghost var s := chp.Pending();
    var reset := GetLine(chp, line);
    if reset {
      return Reset, {};
    }
    ghost var payload := LineOf(s, line.Length).payload;
    LineHolds(line, payload);
    var cmd, jstring := SplitLine(line, UpToNul(payload));
    if cmd == NO_POINTER {
      return NoWord, {};
    }
    ghost var (word, argument) := Split(UpToNul(payload));
    var command := JCmdExec(line, cmd, word.value);
    SetIsFound(word.value);
    if command != Some(1) {
      return OtherCommand, {};
    }
    var copy, ret, fault;
    ghost var t;
    if jstring == NO_POINTER {
      copy, t := null, [];
    } else {
      var a := ReadString(line, jstring, argument.value);
      if !Settable(a) {
        return Undefined, {};
      }
      TextIsNulFree(line, jstring, argument.value);
      var block := Literal(a);
      copy, t := block, a;
    }
    ret, fault, lost := SetJson(lib, db, copy, t);
    if copy != null { AfterSetIs(old(db.ints[..]), t); }
    outcome := if fault then Faulted else Answered(ret);
  }

  lemma TextIsNulFree(line: array<byte>, i: int, t: seq<byte>)
    requires TextAt(line, i, t)
    ensures NulFree(t)
  {
  }

  lemma SetIsFound(word: seq<byte>)
    ensures CallOf(word, None) == Call(1, None) <==> word == SET
  {
  }

  /** The items after a SET, case by case. */
  lemma AfterSetIs(ints: seq<int32>, text: seq<byte>)
    requires Settable(text)
    ensures MembersOfText(text).Some? ==> InRange(MembersOfText(text).value)
    ensures MembersOfText(text).None? ==> AfterSet(ints, text) == ints
    ensures MembersOfText(text).Some? ==> AfterSet(ints, text) == ItemsAfter(ints, MembersOfText(text).value)
    ensures MembersOfText(text).Some? && !AllKnown(MembersOfText(text).value) ==> AfterSet(ints, text) == ints
    ensures IsFilledArray(text) ==> MembersOfText(text).None?
  {
    hide ParseText, InRange, AllKnown;
  }

  // ---------- both sides ----------

  /** The text of the items can be set. */
  lemma TextCanBeSet(w: nat, held: Held, ints: seq<int32>)
    requires |ints| == NUM_INTS && ItemsFit(w, ints)
    ensures Settable(ConfigText(w, held, ints))
  {
    hide Print, ConfigMembers, ItemsFit, Fits, Printable, ParseValue, InRange, StaleConfig;
    ConfigIsItems(ints, w);
    ConfigIsKnown(ints);
    FittingText(w, held, ints);
    TextIsVisible(w, ints);
    var s := ConfigText(w, held, ints);
    assert s[0..|s|] == s;
    VisibleStart(s);
    RoundTripAt(w, held, ConfigValue(ints), s, 0, |s|);
  }

  /** A text that fits arrives, if the line does, as the argument of a SET that C defines. */
  lemma FittingTextArrives(w: nat, held: Held, ints: seq<int32>, size: nat)
    requires |ints| == NUM_INTS && ItemsFit(w, ints)
    ensures !IsUndefined(Sent(w, held, ints), size)
  {
    hide ConfigText, ItemsFit, Settable, SetArgument, StaleConfig;
    FittingText(w, held, ints);
    TextIsVisible(w, ints);
    TextArrives(ConfigText(w, held, ints), size, ints);
    TextCanBeSet(w, held, ints);
  }

  /**
   A condition that either end can check: every item is rendered in fewer than W characters, and the request fits the
   buffer.
   */
  predicate TransferFits(w: nat, ints: seq<int32>, size: nat)
    requires NAMED <= |ints|
  {
    ItemsFit(w, ints) && |StaleConfig(w, ints)| + 4 < size
  }

  /**
   The round trip as code: GET on one device, its reply framed as a SET, and the shell of another device. Unless an
   allocation fails, the receiver has the items that the text sent stands for. If everything fits, those are the 37
   named items of the sender, whatever the blocks held; if not, and the blocks were full of a letter, nothing changes.
   All that stays allocated is the parsed request.
   */
  method GetThenSet(lib: Library, w: nat, sender: Database, receiver: Database, line: array<byte>)
    returns (text: Option<seq<byte>>, outcome: Outcome, ghost held: Held, ghost lost: set<object>)
    requires sender.Valid() && receiver.Valid() && line.Length > 0
    modifies lib`ep, lib`live, lib`failures, lib`nullWrites, lib`overReads, receiver.ints, line
    ensures lib.failures >= old(lib.failures) && lib.live == old(lib.live) + lost && fresh(lost)
    ensures lib.failures == old(lib.failures) ==>
      && text == Some(ConfigText(w, held, old(sender.ints[..]))) && Recorded(held, ConfigValue(old(sender.ints[..])))
      && (lib.overReads == old(lib.overReads) <==> InnerEnd(w, held, ConfigValue(old(sender.ints[..]))))
    ensures lib.failures == old(lib.failures) && ItemsFit(w, old(sender.ints[..])) ==>
      lib.overReads == old(lib.overReads)
    ensures lib.failures == old(lib.failures) && !outcome.Undefined? ==>
      receiver.ints[..] == Received(Sent(w, held, old(sender.ints[..])), line.Length, old(receiver.ints[..]))
    ensures lib.failures == old(lib.failures) && TransferFits(w, old(sender.ints[..]), line.Length) ==>
      receiver.ints[..] == old(sender.ints[..])[..NAMED] + old(receiver.ints[..])[NAMED..]
    ensures lib.failures == old(lib.failures) && !TransferFits(w, old(sender.ints[..]), line.Length) ==>
      held == Stale(ConfigValue(old(sender.ints[..]))) ==> receiver.ints[..] == old(receiver.ints[..])
  {
    hide ParseText, CString, ConfigValue, Print, ConfigText, Sent, Received, ItemsFit, StaleConfig, Recorded;
    hide InnerEnd, IsUndefined, NoSubCommand, AnswerOf, InnerNumbersFit, Fits, Printable;
    ghost var ints, other := sender.ints[..], receiver.ints[..];
    outcome := Reset;
    ConfigIsAskedFor(ints);
    var request := Literal(GET_CONFIG);
    var fault, nullFree;
    text, fault, nullFree, held, lost := CmdGet(lib, w, sender, request, Some(GET_CONFIG));
    SentIs(w, held, ints);
    if text.None? { return; }
    var stream := new ByteStream(Frame(Request(SET, text.value)));
    assert stream.Pending() == stream.input;
    ghost var more;
    outcome, more := ReceiveSet(lib, receiver, stream, line);
    lost := lost + more;
    if lib.failures == old(lib.failures) {
      if ItemsFit(w, ints) {
        ConfigIsItems(ints, w);
        ItemNumbersFit(w, ints);
        FittingNumbersEnd(w, held, ConfigValue(ints));
        FittingTextArrives(w, held, ints, line.Length);
        FittingText(w, held, ints);
      }
      if TransferFits(w, ints, line.Length) {
        TransferWorks(w, held, ints, line.Length, other);
      } else if held == Stale(ConfigValue(ints)) {
        StaleConfigIs(w, ints);
        TransferFails(w, ints, line.Length, other);
      }
    }
  }

  lemma SentIs(w: nat, held: Held, ints: seq<int32>)
    requires NAMED <= |ints|
    ensures Sent(w, held, ints) == Frame(Request(SET, ConfigText(w, held, ints)))
    ensures ConfigText(w, held, ints) == Print(w, held, ConfigValue(ints))
  {
  }
}
