/**
 Printing a structure and parsing the text, through the heap: cJSON_PrintUnformatted and then
 cJSON_ParseWithOpts give a second structure that stands for the same abstract tree.
 */
module HeapRoundTrip {
  import opened Bytes
  import opened Json
  import opened JsonParse
  import opened JsonPrint
  import opened Heap
  import opened Tree
  import opened Links
  import opened TreeParser
  import opened Lifetime
  import opened Printer

  /** No string and no member name is missing. */
  ghost predicate Named(sh: Shape)
    decreases sh
  {
    match sh.typ % IS_REFERENCE
    case 4 => sh.str.Some?
    case 5 => forall i :: 0 <= i < |sh.kids| ==> Named(sh.kids[i])
    case 6 => forall i :: 0 <= i < |sh.kids| ==> sh.kids[i].name.Some? && Named(sh.kids[i])
    case _ => true
  }

  /** The text of a structure is the printed form of its abstract tree, over the same contents of the blocks. */
  lemma {:induction false} TextIsPrint(w: nat, held: Held, sh: Shape)
    requires CanPrint(sh) && Named(sh)
    ensures ShapeText(w, held, sh) == Print(w, held, Abs(sh)) && Printable(Abs(sh))
    decreases sh, 0
  {
    hide ItemTexts, MemberTexts, PrintItems, PrintMembers, AbsAll, AbsMembers, Join, PrintNumber, PrintString;
    hide DecimalText;
    match sh.typ % IS_REFERENCE
    case 5 => ItemsArePrinted(w, held.kids, sh.kids);
    case 6 => MembersArePrinted(w, held.kids, sh.kids);
    case _ =>
  }

  lemma {:induction false} ItemsArePrinted(w: nat, hs: seq<Held>, kids: seq<Shape>)
    requires forall i :: 0 <= i < |kids| ==> CanPrint(kids[i]) && Named(kids[i])
    ensures forall i :: 0 <= i < |kids| ==> Printable(Abs(kids[i]))
    ensures |kids| > 0 ==> Join(ItemTexts(w, hs, kids), RBRACKET) == PrintItems(w, hs, AbsAll(kids))
    decreases kids, 1
  {
    if |kids| > 0 {
      hide CanPrint, Named, ShapeText, Print, Abs, Printable;
      TextIsPrint(w, Kid(hs, 0), kids[0]);
      ItemsArePrinted(w, Later(hs), kids[1..]);
      assert ItemTexts(w, hs, kids)[1..] == ItemTexts(w, Later(hs), kids[1..]);
      assert AbsAll(kids)[1..] == AbsAll(kids[1..]);
    }
  }

  lemma {:induction false} MembersArePrinted(w: nat, hs: seq<Held>, kids: seq<Shape>)
    requires forall i :: 0 <= i < |kids| ==> CanPrint(kids[i]) && Named(kids[i])
    requires forall i :: 0 <= i < |kids| ==> kids[i].name.Some? && IsCText(kids[i].name)
    ensures forall i :: 0 <= i < |kids| ==> PrintableMember(AbsMembers(kids)[i])
    ensures |kids| > 0 ==> Join(MemberTexts(w, hs, kids), RBRACE) == PrintMembers(w, hs, AbsMembers(kids))
    decreases kids, 1
  {
    if |kids| > 0 {
      hide CanPrint, Named, ShapeText, Print, Abs, Printable, PrintString;
      TextIsPrint(w, Kid(hs, 0), kids[0]);
      MembersArePrinted(w, Later(hs), kids[1..]);
      assert MemberTexts(w, hs, kids)[1..] == MemberTexts(w, Later(hs), kids[1..]);
      assert AbsMembers(kids)[1..] == AbsMembers(kids[1..]);
    }
  }

  /** The same of the blocks: their sizes, and whether the texts of numbers end in them. */
  lemma {:induction false} BlocksAreThose(w: nat, held: Held, sh: Shape)
    requires CanPrint(sh) && Named(sh)
    ensures ShapeRecorded(held, sh) <==> Recorded(held, Abs(sh))
    ensures ShapeEnds(w, held, sh) <==> Ends(w, held, Abs(sh))
    ensures ShapeInnerEnd(w, held, sh) <==> InnerEnd(w, held, Abs(sh))
    decreases sh
  {
    hide PrintNumber, Room;
    forall i | 0 <= i < |sh.kids| && sh.typ % IS_REFERENCE in {TYPE_ARRAY, TYPE_OBJECT}
      ensures ShapeRecorded(Kid(held.kids, i), sh.kids[i]) <==> Recorded(Kid(held.kids, i), Abs(sh.kids[i]))
      ensures ShapeEnds(w, Kid(held.kids, i), sh.kids[i]) <==> Ends(w, Kid(held.kids, i), Abs(sh.kids[i]))
      ensures ShapeInnerEnd(w, Kid(held.kids, i), sh.kids[i]) <==> InnerEnd(w, Kid(held.kids, i), Abs(sh.kids[i]))
    {
      BlocksAreThose(w, Kid(held.kids, i), sh.kids[i]);
    }
  }

  /** What the parser has built can be printed when the numbers are ints. */
  lemma {:induction false} ParsedCanBePrinted(sh: Shape)
    requires AsParsed(sh) && Printable(Abs(sh))
    ensures CanPrint(sh) && Named(sh)
    decreases sh
  {
    hide AbsAll, AbsMembers;
    forall i | 0 <= i < |sh.kids| && sh.typ == TYPE_ARRAY
      ensures CanPrint(sh.kids[i]) && Named(sh.kids[i])
    {
      assert AbsAll(sh.kids)[i] == Abs(sh.kids[i]);
      ParsedCanBePrinted(sh.kids[i]);
    }
    forall i | 0 <= i < |sh.kids| && sh.typ == TYPE_OBJECT
      ensures CanPrint(sh.kids[i]) && Named(sh.kids[i]) && IsCText(sh.kids[i].name)
    {
      var m := AbsMembers(sh.kids)[i];
      assert PrintableMember(m);
      ParsedCanBePrinted(sh.kids[i]);
    }
  }

  /**
   cJSON_PrintUnformatted, for every structure and every W: the printed form of the abstract tree over what
   the fresh blocks held.
   */
  method PrintUnformatted(lib: Library, w: nat, item: Node?, ghost sh: Option<Shape>)
    returns (out: array?<byte>, ghost held: Held)
    requires if item == null then sh.None?
      else sh.Some? && item == sh.value.node && Holds(sh.value) && CanPrint(sh.value)
    modifies lib`live, lib`failures, lib`nullWrites, lib`overReads
    ensures out == null ==> lib.live == old(lib.live) && (item == null || lib.failures > old(lib.failures))
    ensures out != null ==>
      item != null && fresh(out) && lib.live == old(lib.live) + {out} && lib.failures == old(lib.failures)
    ensures out != null ==> Printed(out, w, held, sh.value)
    ensures out != null && Named(sh.value) ==>
      Reads(out, Print(w, held, Abs(sh.value))) && Recorded(held, Abs(sh.value))
    ensures out != null && Named(sh.value) ==>
      (CString(out, Print(w, held, Abs(sh.value))) <==> Ends(w, held, Abs(sh.value)))
    ensures out != null && Named(sh.value) ==>
      (lib.overReads == old(lib.overReads) <==> InnerEnd(w, held, Abs(sh.value)))
    ensures out != null && Named(sh.value) && InnerNumbersFit(w, Abs(sh.value)) ==> lib.overReads == old(lib.overReads)
    ensures lib.overReads >= old(lib.overReads)
    ensures Accounted(item != null && HasNumber(sh.value), old(lib.failures), lib.failures,
                      old(lib.nullWrites), lib.nullWrites)
  {
    hide Holds, CanPrint, ShapeText, Print, Abs, Named, CString, Reads, Recorded, ShapeRecorded, Ends, ShapeEnds;
    hide InnerEnd, ShapeInnerEnd, HasNumber, InnerNumbersFit, Printable;
    if item == null { return null, NOTHING; }
    out, held := PrintValue(lib, w, item, sh.value);
    if Named(sh.value) {
      TextIsPrint(w, held, sh.value);
      BlocksAreThose(w, held, sh.value);
      if InnerNumbersFit(w, Abs(sh.value)) { FittingNumbersEnd(w, held, Abs(sh.value)); }
      if out != null { CStringReads(out, ShapeText(w, held, sh.value)); }
    }
  }

  /**
   The whole-tree round trip over the heap: unless an allocation fails, the text that is printed for a
   structure is parsed to the end, into a structure of fresh blocks for the same abstract tree.
   */
  method PrintAndParse(lib: Library, w: nat, item: Node, ghost sh: Shape)
    returns (copy: Node?, ghost tree: Option<Shape>)
    requires item == sh.node && Holds(sh) && CanPrint(sh) && Named(sh) && Fits(w, Abs(sh))
    modifies lib`ep, lib`live, lib`failures, lib`nullWrites, lib`overReads
    ensures copy == null ==> lib.failures > old(lib.failures) && lib.live == old(lib.live)
    ensures copy != null ==> tree.Some? && IsRoot(copy, tree.value) && Abs(tree.value) == Abs(sh)
    ensures copy != null ==> CanPrint(tree.value) && Named(tree.value)
    ensures copy != null ==> fresh(Foot(tree.value)) && lib.live == old(lib.live) + Foot(tree.value)
    ensures copy != null ==> lib.overReads == old(lib.overReads)
  {
    hide Holds, CanPrint, ShapeText, Print, Abs, Named, CString, IsRoot, Nodes, Blocks, ParseText, Printable, Fits;
    hide AsParsed, Recorded, Ends, InnerEnd, HasNumber, Reads, Printed;
    var out;
    ghost var held;
    out, held := PrintUnformatted(lib, w, item, Some(sh));
    if out == null { return null, None; }
    ghost var text := Print(w, held, Abs(sh));
    TextIsPrint(w, held, sh);
    FittingEnds(w, held, Abs(sh));
    RoundTrip(w, held, Abs(sh));
    var end;
    copy, end, tree := ParseWithOpts(lib, out, text, true);
    if copy != null { ParsedCanBePrinted(tree.value); }
    lib.Free(out);
  }
}
