/**
 Building structures node by node: single nodes, parents, and lists that grow at their end.
 */
module Links {
  import opened Bytes
  import opened Heap
  import opened Tree

  // ---------- single nodes and parents ----------

  /** The shape of a node without children. */
  ghost function Leaf(item: Node, str: Option<Str>, name: Option<Str>): Shape
    reads item
  {
    Shape(item, item.typ, str, item.valueint, item.valuedouble, name, [])
  }

  lemma LeafBuilt(sh: Shape)
    requires sh.typ < IS_REFERENCE && sh.kids == [] && BlockOf(sh.str) !! BlockOf(sh.name)
    ensures Separate(sh) && Nodes(sh) == {sh.node} && Blocks(sh) == BlockOf(sh.str) + BlockOf(sh.name)
    ensures NodesAll([]) == {} && BlocksAll([]) == {}
  {
  }

  lemma LeafHolds(item: Node, str: Option<Str>, name: Option<Str>)
    requires StrHolds(item.valuestring, str) && StrHolds(item.name, name) && item.child == null
    ensures Holds(Leaf(item, str, name))
  {
  }

  /** What the shape says of the node itself. */
  lemma FieldsOf(sh: Shape)
    requires Holds(sh)
    ensures sh.node.typ == sh.typ && sh.node.valueint == sh.valueint && sh.node.valuedouble == sh.number
    ensures StrHolds(sh.node.valuestring, sh.str) && StrHolds(sh.node.name, sh.name)
    ensures sh.node.child == First(sh.kids) && HoldsAll(sh.kids)
  {
  }

  /** The shape of a node whose children are a list. */
  lemma ParentBuilt(sh: Shape)
    requires !IsReference(sh.typ) && sh.node !in NodesAll(sh.kids) && SeparateAll(sh.kids)
    requires BlockOf(sh.str) !! BlockOf(sh.name)
    requires BlockOf(sh.str) !! BlocksAll(sh.kids) && BlockOf(sh.name) !! BlocksAll(sh.kids)
    ensures Separate(sh) && Nodes(sh) == {sh.node} + NodesAll(sh.kids)
    ensures Blocks(sh) == BlockOf(sh.str) + BlockOf(sh.name) + BlocksAll(sh.kids)
  {
  }

  lemma ParentHolds(sh: Shape)
    requires sh.node.typ == sh.typ && sh.node.valueint == sh.valueint && sh.node.valuedouble == sh.number
    requires StrHolds(sh.node.valuestring, sh.str) && StrHolds(sh.node.name, sh.name)
    requires sh.node.child == First(sh.kids) && HoldsAll(sh.kids)
    ensures Holds(sh)
  {
  }

  /** What a separate structure is made of. */
  lemma PartsOf(sh: Shape)
    requires Separate(sh)
    ensures !IsReference(sh.typ) && sh.node !in NodesAll(sh.kids) && SeparateAll(sh.kids)
    ensures BlockOf(sh.str) !! BlockOf(sh.name)
    ensures BlockOf(sh.str) !! BlocksAll(sh.kids) && BlockOf(sh.name) !! BlocksAll(sh.kids)
    ensures Nodes(sh) == {sh.node} + NodesAll(sh.kids)
    ensures Blocks(sh) == BlockOf(sh.str) + BlockOf(sh.name) + BlocksAll(sh.kids)
  {
  }

  lemma RootInFoot(sh: Shape)
    ensures sh.node in Nodes(sh) && sh.node in Foot(sh)
  {
  }

  /** The node is the root of a structure that stands alone and owns all its parts. */
  ghost predicate IsRoot(c: Node, sh: Shape)
    reads c, Nodes(sh), Blocks(sh)
  {
    RootInFoot(sh);
    c == sh.node && c.next == null && c.prev == null && Separate(sh) && Holds(sh)
  }

  lemma AppendShape(kids: seq<Shape>, sh: Shape)
    requires SeparateAll(kids) && Separate(sh) && NodesAll(kids) !! Nodes(sh) && BlocksAll(kids) !! Blocks(sh)
    ensures SeparateAll(kids + [sh]) && NodesAll(kids + [sh]) == NodesAll(kids) + Nodes(sh)
    ensures BlocksAll(kids + [sh]) == BlocksAll(kids) + Blocks(sh) && FootAll(kids + [sh]) == FootAll(kids) + Foot(sh)
  {
    hide Nodes, NodesAll, Blocks, BlocksAll, Separate;
    FootAllOne(sh);
    SeparateAppend(kids, [sh]);
    FootAllAppend(kids, [sh]);
  }

  /** Following next along a list. */
  lemma ListStep(shs: seq<Shape>, i: nat)
    requires HoldsAll(shs) && i < |shs|
    ensures Holds(shs[i]) && shs[i].node in NodesAll(shs) && First(shs[i..]) == shs[i].node
    ensures shs[i].node.next == First(shs[i + 1..])
  {
    hide Holds;
    InNodesAll(shs, i);
  }

  /** Counting the children, as cJSON_GetArraySize and the printers do. */
  method CountList(first: Node?, ghost kids: seq<Shape>) returns (n: nat)
    requires first == First(kids) && HoldsAll(kids)
    ensures n == |kids| && HoldsAll(kids)
  {
    hide Holds, HoldsAll;
    var c := first;
    n := 0;
    assert kids[0..] == kids;
    while c != null
      invariant HoldsAll(kids) && n <= |kids| && c == First(kids[n..])
      decreases |kids| - n
    {
      ListStep(kids, n);
      n := n + 1;
      c := c.next;
    }
  }

  lemma NameInFoot(sh: Shape)
    ensures BlockOf(sh.name) <= Blocks(sh) && sh.node in Nodes(sh)
  {
  }

  lemma EmptyHolds()
    ensures HoldsAll([]) && SeparateAll([]) && NodesAll([]) == {} && BlocksAll([]) == {} && FootAll([]) == {}
  {
  }

  lemma OneKid(sh: Shape)
    requires Separate(sh) && Holds(sh) && sh.node.next == null && sh.node.prev == null
    ensures SeparateAll([sh]) && HoldsAll([sh])
    ensures NodesAll([sh]) == Nodes(sh) && BlocksAll([sh]) == Blocks(sh) && FootAll([sh]) == Foot(sh)
  {
    FootAllOne(sh);
  }

  // ---------- linking ----------

  /** The shapes hold and are linked among themselves, and the last one's next is n. */
  ghost predicate HoldsUpTo(shs: seq<Shape>, n: Node?)
    reads NodesAll(shs), BlocksAll(shs)
  {
    RootsInside(shs);
    && (forall i :: 0 <= i < |shs| ==> Holds(shs[i]))
    && LinkedUpTo(shs, n)
  }

  /** Closing the list: the shape built in the next node is the new last one. */
  lemma AppendLinked(kids: seq<Shape>, sh: Shape)
    requires HoldsUpTo(kids, sh.node) && Holds(sh)
    requires sh.node.next == null && sh.node.prev == if |kids| > 0 then kids[|kids| - 1].node else null
    ensures HoldsAll(kids + [sh])
  {
    var all := kids + [sh];
    assert all[|kids|] == sh;
    assert forall i :: 0 <= i < |kids| ==> all[i] == kids[i];
  }

  /** suffix_object: the item becomes the one behind the last root of a list. */
  method SuffixObject(prev: Node, item: Node, ghost kids: seq<Shape>)
    requires |kids| > 0 && kids[|kids| - 1].node == prev && SeparateAll(kids) && HoldsAll(kids)
    requires item !in NodesAll(kids)
    modifies prev`next, item`prev
    ensures HoldsUpTo(kids, item) && prev.next == item && item.prev == prev
  {
    hide Nodes, NodesAll, Blocks, BlocksAll, Separate, SeparateAll, Holds;
    SetLinks(prev, item, kids);
    LastIsNew(kids);
    RootsInside(kids);
  }

  lemma LastIsNew(kids: seq<Shape>)
    requires |kids| > 0 && SeparateAll(kids)
    ensures forall i :: 0 <= i < |kids| - 1 ==> kids[i].node != kids[|kids| - 1].node
  {
    LastNodeApart(kids);
    forall i | 0 <= i < |kids| - 1
      ensures kids[i].node != kids[|kids| - 1].node
    {
      assert kids[i].node in Nodes(kids[i]);
    }
  }

  method SetLinks(prev: Node, item: Node, ghost kids: seq<Shape>)
    requires |kids| > 0 && kids[|kids| - 1].node == prev && SeparateAll(kids)
    requires forall i :: 0 <= i < |kids| ==> Holds(kids[i])
    requires item !in NodesAll(kids)
    modifies prev`next, item`prev
    ensures forall i :: 0 <= i < |kids| ==> Holds(kids[i])
    ensures prev.next == item && item.prev == prev
  {
    LastNodeApart(kids);
    InnerNodes(kids);
    hide *;
    prev.next := item;
    item.prev := prev;
    forall i | 0 <= i < |kids|
      ensures Holds(kids[i])
    {
      assert old(Holds(kids[i]));
      assert old(allocated(Blocks(kids[i])));
      assert item !in NodesAll(kids[i].kids) && prev !in NodesAll(kids[i].kids);
    }
  }

  lemma InnerNodes(shs: seq<Shape>)
    ensures forall i :: 0 <= i < |shs| ==> NodesAll(shs[i].kids) <= NodesAll(shs)
  {
    RootsInside(shs);
    assert forall i :: 0 <= i < |shs| ==> NodesAll(shs[i].kids) <= Nodes(shs[i]);
  }

  /** The last root is not inside another shape of the list, nor below itself. */
  lemma LastNodeApart(kids: seq<Shape>)
    requires |kids| > 0 && SeparateAll(kids)
    ensures var last := kids[|kids| - 1].node;
      && (forall i :: 0 <= i < |kids| - 1 ==> last !in Nodes(kids[i]))
      && (forall i :: 0 <= i < |kids| ==> last !in NodesAll(kids[i].kids))
  {
    var n := |kids| - 1;
    assert kids[n].node in Nodes(kids[n]);
    forall i | 0 <= i < n
      ensures kids[n].node !in Nodes(kids[i])
    {
      assert Nodes(kids[i]) !! Nodes(kids[n]);
    }
    assert Separate(kids[n]);
  }

  /** An item that stands alone becomes the last child of a node, whose last child so far is given. */
  method LinkLast(parent: Node, last: Node?, item: Node, ghost kids: seq<Shape>, ghost sh: Shape)
    requires parent.child == First(kids) && SeparateAll(kids) && HoldsAll(kids)
    requires last == if |kids| == 0 then null else kids[|kids| - 1].node
    requires IsRoot(item, sh) && FootAll(kids) !! Foot(sh) && parent !in NodesAll(kids) + Nodes(sh)
    modifies parent`child, (if last == null then {} else {last})`next, item`prev
    ensures parent.child == First(kids + [sh]) && SeparateAll(kids + [sh]) && HoldsAll(kids + [sh])
    ensures NodesAll(kids + [sh]) == NodesAll(kids) + Nodes(sh)
    ensures BlocksAll(kids + [sh]) == BlocksAll(kids) + Blocks(sh)
  {
    hide Nodes, NodesAll, Blocks, BlocksAll, Separate, SeparateAll, Holds, HoldsAll;
    NothingInEmpty();
    AppendShape(kids, sh);
    PartsOf(sh);
    if last != null {
      LastLinked(last, item, kids, sh);
    } else {
      assert allocated(NodesAll(sh.kids)) && allocated(Blocks(sh)) && Holds(sh);
      parent.child := item;
      OneKid(sh);
      assert kids + [sh] == [sh];
    }
  }

  lemma NothingInEmpty()
    ensures NodesAll([]) == {} && BlocksAll([]) == {}
  {
  }

  method LastLinked(last: Node, item: Node, ghost kids: seq<Shape>, ghost sh: Shape)
    requires |kids| > 0 && kids[|kids| - 1].node == last && SeparateAll(kids) && HoldsAll(kids)
    requires IsRoot(item, sh) && FootAll(kids) !! Foot(sh)
    modifies last`next, item`prev
    ensures HoldsAll(kids + [sh])
  {
    hide Nodes, NodesAll, Blocks, BlocksAll, Separate, SeparateAll, Holds, HoldsAll, HoldsUpTo;
    RootsInside(kids);
    RootInFoot(sh);
    PartsOf(sh);
    assert allocated(NodesAll(sh.kids)) && allocated(Blocks(sh));
    SuffixObject(last, item, kids);
    AppendLinked(kids, sh);
  }
}
