/**
 cJSON_Delete and cJSON_ParseWithOpts: what a structure owns, and that parsing and deleting account
 for every block.
 */
module Lifetime {
  import opened Bytes
  import opened Json
  import opened JsonParse
  import opened Heap
  import opened Tree
  import opened Links
  import opened TreeParser

  // ---------- ownership ----------

  /** The blocks that deleting a node gives back: a reference owns neither its string nor its children. */
  ghost function Owned(sh: Shape): set<object>
    decreases sh
  {
    {sh.node} + BlockOf(sh.name) + if IsReference(sh.typ) then {} else BlockOf(sh.str) + OwnedAll(sh.kids)
  }

  ghost function OwnedAll(shs: seq<Shape>): set<object>
    decreases shs
  {
    if |shs| == 0 then {} else Owned(shs[0]) + OwnedAll(shs[1..])
  }

  /** No block is owned twice. What references point to may be owned by anyone, or no longer exist. */
  ghost predicate OwnedOnce(sh: Shape)
    decreases sh
  {
    IsReference(sh.typ) ||
    (&& sh.node !in OwnedAll(sh.kids)
     && BlockOf(sh.str) !! BlockOf(sh.name)
     && BlockOf(sh.str) !! OwnedAll(sh.kids)
     && BlockOf(sh.name) !! OwnedAll(sh.kids)
     && OwnedOnceAll(sh.kids))
  }

  ghost predicate OwnedOnceAll(shs: seq<Shape>)
    decreases shs
  {
    |shs| == 0 || (OwnedOnce(shs[0]) && Owned(shs[0]) !! OwnedAll(shs[1..]) && OwnedOnceAll(shs[1..]))
  }

  ghost predicate PointsTo(block: array?<byte>, str: Option<Str>) {
    block == if str.None? then null else str.value.block
  }

  /** The fields that a deletion looks at are as in the shape. */
  ghost predicate Deletable(sh: Shape)
    reads Nodes(sh)
    decreases sh
  {
    && sh.node.typ == sh.typ
    && PointsTo(sh.node.name, sh.name)
    && (!IsReference(sh.typ) ==>
      PointsTo(sh.node.valuestring, sh.str) && sh.node.child == First(sh.kids) && DeletableAll(sh.kids))
  }

  lemma TailInside(shs: seq<Shape>)
    ensures |shs| > 0 ==>
      Nodes(shs[0]) <= NodesAll(shs) && NodesAll(shs[1..]) <= NodesAll(shs) && shs[0].node in NodesAll(shs)
  {
    hide NodesAll;
    if |shs| > 0 {
      InNodesAll(shs, 0);
      FootAllAppend([shs[0]], shs[1..]);
      assert shs == [shs[0]] + shs[1..];
    }
  }

  /** The same for a chain of nodes, each with a next that leads to the one behind it. */
  ghost predicate DeletableAll(shs: seq<Shape>)
    reads NodesAll(shs)
    decreases shs
  {
    TailInside(shs);
    |shs| == 0 || (Deletable(shs[0]) && shs[0].node.next == First(shs[1..]) && DeletableAll(shs[1..]))
  }

  // ---------- deletion ----------

  /**
   cJSON_Delete, of a node and all behind it: every node it looks at and every block it frees is still
   allocated, and the ledger loses exactly what the chain owns.
   */
  method Delete(lib: Library, first: Node?, ghost shs: seq<Shape>)
    requires first == First(shs) && DeletableAll(shs) && OwnedOnceAll(shs) && OwnedAll(shs) <= lib.live
    modifies lib`live
    ensures lib.live == old(lib.live) - OwnedAll(shs)
    decreases shs
  {
    hide Owned, OwnedOnce, Deletable;
    var c := first;
    ghost var rest := shs;
    while c != null
      invariant c == First(rest) && |rest| <= |shs| && rest == shs[|shs| - |rest|..]
      invariant DeletableAll(rest) && OwnedOnceAll(rest) && OwnedAll(rest) <= OwnedAll(shs)
      invariant lib.live == old(lib.live) - (OwnedAll(shs) - OwnedAll(rest))
      decreases |rest|
    {
      RootOwned(rest[0]);
      assert rest[0] == shs[|shs| - |rest|] && c in lib.live;
      var next := c.next;
      assert DeletableAll(rest[1..]) && allocated(NodesAll(rest[1..]));
      DeleteNode(lib, c, rest[0]);
      c := next;
      rest := rest[1..];
    }
  }

  lemma RootOwned(sh: Shape)
    ensures sh.node in Owned(sh)
  {
  }

  /** One turn of the loop of cJSON_Delete. */
  method DeleteNode(lib: Library, c: Node, ghost sh: Shape)
    requires c == sh.node && Deletable(sh) && OwnedOnce(sh) && Owned(sh) <= lib.live
    modifies lib`live
    ensures lib.live == old(lib.live) - Owned(sh)
    decreases sh
  {
    if !IsReference(c.typ) && c.child != null {
      Delete(lib, c.child, sh.kids);
    }
    if !IsReference(c.typ) && c.valuestring != null {
      lib.Free(c.valuestring);
    }
    if c.name != null {
      lib.Free(c.name);
    }
    lib.Free(c);
  }

  // ---------- structures without references ----------

  /** Deleting a separate structure gives back its whole footprint. */
  lemma {:induction false} SeparateIsOwned(sh: Shape)
    requires Separate(sh) && Holds(sh)
    ensures Deletable(sh) && OwnedOnce(sh) && Owned(sh) == Foot(sh)
    decreases sh
  {
    ListIsOwned(sh.kids);
  }

  /** The nodes of a list are as in the shapes and each next leads to the one behind it. */
  ghost predicate Forward(shs: seq<Shape>)
    reads NodesAll(shs), BlocksAll(shs)
  {
    RootsInside(shs);
    && (forall i :: 0 <= i < |shs| ==> Holds(shs[i]))
    && (|shs| > 0 ==> shs[|shs| - 1].node.next == null)
    && forall i, j {:trigger shs[i], shs[j]} :: 0 <= i < j < |shs| && j == i + 1 ==> shs[i].node.next == shs[j].node
  }

  lemma TailOfList(shs: seq<Shape>)
    requires |shs| > 0 && SeparateAll(shs) && Forward(shs)
    ensures Separate(shs[0]) && Holds(shs[0]) && shs[0].node.next == First(shs[1..])
    ensures SeparateAll(shs[1..]) && Forward(shs[1..])
    ensures FootAll(shs) == Foot(shs[0]) + FootAll(shs[1..]) && Foot(shs[0]) !! FootAll(shs[1..])
  {
    hide Separate, Holds, Nodes, Blocks, NodesAll, BlocksAll;
    var rest := shs[1..];
    assert forall i {:trigger rest[i]} :: 0 <= i < |rest| ==> rest[i] == shs[i + 1];
    assert shs == [shs[0]] + rest;
    FootAllAppend([shs[0]], rest);
    FootAllOne(shs[0]);
    HeadApart(shs);
  }

  lemma {:induction false} ListIsOwned(shs: seq<Shape>)
    requires SeparateAll(shs) && Forward(shs)
    ensures DeletableAll(shs) && OwnedOnceAll(shs) && OwnedAll(shs) == FootAll(shs)
    decreases shs
  {
    if |shs| > 0 {
      TailOfList(shs);
      hide Separate, Holds, SeparateAll, Forward, Foot, NodesAll, BlocksAll, Owned, OwnedOnce, Deletable;
      SeparateIsOwned(shs[0]);
      ListIsOwned(shs[1..]);
    } else {
      EmptyHolds();
    }
  }

  /** The first structure of a separate list shares nothing with those behind it. */
  lemma HeadApart(shs: seq<Shape>)
    requires |shs| > 0 && SeparateAll(shs)
    ensures Foot(shs[0]) !! FootAll(shs[1..])
  {
    hide Nodes, Blocks, Separate;
    var rest := shs[1..];
    forall n | n in NodesAll(rest)
      ensures n !in Nodes(shs[0])
    {
      var i := FromNodesAll(rest, n);
      assert rest[i] == shs[i + 1];
    }
    forall b | b in BlocksAll(rest)
      ensures b !in Blocks(shs[0])
    {
      var i := FromBlocksAll(rest, b);
      assert rest[i] == shs[i + 1];
    }
  }

  /** A node that stands alone, or is the last of its list, is a chain of its own. */
  lemma RootIsOwned(sh: Shape)
    requires Separate(sh) && Holds(sh) && sh.node.next == null
    ensures DeletableAll([sh]) && OwnedOnceAll([sh]) && OwnedAll([sh]) == Foot(sh)
  {
    hide Separate, Holds, Nodes, Blocks;
    SeparateIsOwned(sh);
    assert [sh][1..] == [];
  }

  // ---------- parsing a text ----------

  /**
   cJSON_ParseWithOpts. Without a failed allocation the result is that of the parsing function, and
   the error pointer is where it says; a call that returns no tree, for whatever reason, leaves the
   ledger as it was, and one that returns a tree has added exactly that tree to it.
   */
  method ParseWithOpts(lib: Library, text: array?<byte>, ghost s: seq<byte>, requireNullTerminated: bool)
    returns (c: Node?, end: int, ghost tree: Option<Shape>)
    requires text != null ==> CString(text, s) && !ParseText(s, requireNullTerminated).OutOfBounds?
    modifies lib`ep, lib`live, lib`failures
    ensures c == null ==> lib.live == old(lib.live)
    ensures c != null ==> tree.Some? && IsRoot(c, tree.value) && fresh(Foot(tree.value))
    ensures c != null ==> lib.live == old(lib.live) + Foot(tree.value)
    ensures c != null ==> text != null && lib.ep == None
    ensures c != null ==>
      end >= 0 && ParseText(s, requireNullTerminated) == Done(end, Abs(tree.value)) && AsParsed(tree.value)
    ensures lib.failures >= old(lib.failures)
    ensures lib.failures > old(lib.failures) ==> c == null && lib.ep == None
    ensures lib.failures == old(lib.failures) && c == null && text != null ==>
      ParseText(s, requireNullTerminated).Fail? && lib.ep == Some(ParseText(s, requireNullTerminated).at)
    ensures lib.failures == old(lib.failures) && text == null ==> c == null && lib.ep == None
  {
    hide ParseValue, Skip, Separate, Holds, Nodes, Blocks, CString, AsParsed;
    end := NULL;
    c := lib.NewItem();
    lib.ep := None;
    tree := None;
    if c == null { return; }
    var start := SkipText(text, s, if text == null then NULL else 0);
    if text != null { SkipBounds(s, 0); }
    ghost var sh;
    end, sh := ParseValueItem(lib, text, s, c, start, None);
    tree := Some(sh);
    RootIsOwned(sh);
    RootInFoot(sh);
    if end == NULL {
      Delete(lib, c, [sh]);
      return null, NULL, None;
    }
    if requireNullTerminated {
      end := SkipText(text, s, end);
      CharAt(text, s, end);
      if text[end] != 0 {
        Delete(lib, c, [sh]);
        lib.ep := Some(end);
        return null, NULL, None;
      }
    }
  }
}
