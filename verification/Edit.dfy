/**
 The list operations of cJSON.c. Each is an operation on the sequence of children, and keeps the
 structure separate and its children linked both ways.
 */
module Edit {
  import opened Bytes
  import opened Json
  import opened Heap
  import opened Tree
  import opened Links
  import opened Lifetime

  ghost function Roots(kids: seq<Shape>): set<Node> { set sh | sh in kids :: sh.node }

  /** The index that a caller's index means: walking stops at once when it is not positive. */
  function Index(which: int): nat { if which > 0 then which else 0 }

  ghost function Without<T>(kids: seq<T>, k: nat): seq<T>
    requires k < |kids|
  {
    kids[..k] + kids[k + 1..]
  }

  ghost predicate IsParent(parent: Node, psh: Shape)
    reads parent, Nodes(psh), Blocks(psh)
  {
    RootInFoot(psh);
    parent == psh.node && Separate(psh) && Holds(psh)
  }

  lemma ParentKids(parent: Node, psh: Shape)
    requires IsParent(parent, psh)
    ensures parent.child == First(psh.kids) && HoldsAll(psh.kids) && SeparateAll(psh.kids)
    ensures parent !in NodesAll(psh.kids)
  {
    hide Separate, Holds, HoldsAll, SeparateAll, Nodes, NodesAll, Blocks, BlocksAll;
    FieldsOf(psh);
    PartsOf(psh);
  }

  lemma RootsDiffer(kids: seq<Shape>)
    requires SeparateAll(kids)
    ensures forall i, j :: 0 <= i < j < |kids| ==> kids[i].node != kids[j].node
    ensures forall i :: 0 <= i < |kids| ==> kids[i].node in Roots(kids)
  {
    RootsApart(kids);
  }

  lemma RootsApart(kids: seq<Shape>)
    requires SeparateAll(kids)
    ensures forall i, j :: 0 <= i < |kids| && 0 <= j < |kids| ==> kids[i].node !in NodesAll(kids[j].kids)
    ensures forall i, j :: 0 <= i < j < |kids| ==> kids[i].node != kids[j].node
    ensures forall i :: 0 <= i < |kids| ==> kids[i].node in Roots(kids) && kids[i].node in NodesAll(kids)
  {
    hide BlocksAll, Blocks, NodesAll;
    RootsInside(kids);
    forall i, j | 0 <= i < |kids| && 0 <= j < |kids|
      ensures kids[i].node !in NodesAll(kids[j].kids) && (i < j ==> kids[i].node != kids[j].node)
    {
      assert kids[i].node in Nodes(kids[i]) && kids[j].node in Nodes(kids[j]);
      assert NodesAll(kids[j].kids) <= Nodes(kids[j]) && Separate(kids[j]);
      assert i < j ==> Nodes(kids[i]) !! Nodes(kids[j]);
      assert j < i ==> Nodes(kids[j]) !! Nodes(kids[i]);
    }
  }

  // ---------- walking ----------

  /** The node at an index of the list, or null behind its end. */
  method Walk(parent: Node, which: int, ghost psh: Shape) returns (c: Node?)
    requires IsParent(parent, psh)
    ensures IsParent(parent, psh)
    ensures c == if Index(which) < |psh.kids| then psh.kids[Index(which)].node else null
  {
    hide IsParent, Separate, Holds, HoldsAll, SeparateAll, Nodes, NodesAll, Blocks, BlocksAll;
    ParentKids(parent, psh);
    var w := which;
    c := parent.child;
    ghost var i := 0;
    assert psh.kids[0..] == psh.kids;
    while c != null && w > 0
      invariant HoldsAll(psh.kids) && i <= |psh.kids| && c == First(psh.kids[i..])
      invariant Index(which) == i + Index(w) && IsParent(parent, psh)
      decreases |psh.kids| - i
    {
      ListStep(psh.kids, i);
      c := c.next;
      w := w - 1;
      i := i + 1;
    }
  }

  /** cJSON_GetArraySize */
  method GetArraySize(parent: Node, ghost psh: Shape) returns (n: nat)
    requires IsParent(parent, psh)
    ensures n == |psh.kids|
  {
    hide IsParent;
    ParentKids(parent, psh);
    n := CountList(parent.child, psh.kids);
  }

  /** cJSON_GetArrayItem */
  method GetArrayItem(parent: Node, item: int, ghost psh: Shape) returns (c: Node?)
    requires IsParent(parent, psh)
    ensures 0 <= item < |psh.kids| ==> c == psh.kids[item].node
    ensures item < 0 && psh.kids != [] ==> c == psh.kids[0].node
    ensures item >= |psh.kids| ==> c == null
  {
    c := Walk(parent, item, psh);
  }

  // ---------- detaching ----------

  /** The links of a list from which the root at k has been taken out. */
  ghost predicate LinkedAround(kids: seq<Shape>, k: nat)
    requires k < |kids|
    reads Roots(kids)`next, Roots(kids)`prev
  {
    && (k > 0 ==> kids[0].node.prev == null && kids[k - 1].node.next == First(kids[k + 1..]))
    && (k + 1 < |kids| ==>
      kids[|kids| - 1].node.next == null && kids[k + 1].node.prev == if k > 0 then kids[k - 1].node else null)
    && forall i, j {:trigger kids[i], kids[j]} :: 0 <= i < j < |kids| && j == i + 1 && i != k && j != k ==>
         kids[i].node.next == kids[j].node && kids[j].node.prev == kids[i].node
  }

  lemma LinkedWithout(kids: seq<Shape>, k: nat)
    requires k < |kids| && LinkedAround(kids, k)
    ensures Linked(Without(kids, k))
  {
    hide NodesAll;
    var ws := Without(kids, k);
    forall i, j | 0 <= i < j < |ws| && j == i + 1
      ensures ws[i].node.next == ws[j].node && ws[j].node.prev == ws[i].node
    {
      assert ws[i] == (if i < k then kids[i] else kids[i + 1]) && ws[j] == if j < k then kids[j] else kids[j + 1];
    }
    assert |ws| > 0 ==> ws[0] == if k > 0 then kids[0] else kids[1];
    assert |ws| > 0 ==> ws[|ws| - 1] == if k + 1 < |kids| then kids[|kids| - 1] else kids[|kids| - 2];
  }

  /** A list without the root at k owns what the list owned but for what is below that root. */
  lemma WithoutApart(kids: seq<Shape>, k: nat)
    requires SeparateAll(kids) && k < |kids|
    ensures SeparateAll(Without(kids, k)) && Foot(kids[k]) !! FootAll(Without(kids, k))
    ensures NodesAll(kids) == Nodes(kids[k]) + NodesAll(Without(kids, k))
    ensures BlocksAll(kids) == Blocks(kids[k]) + BlocksAll(Without(kids, k))
  {
    hide Nodes, Blocks, Separate, NodesAll, BlocksAll, SeparateAll;
    WithoutSeparate(kids, k);
    WithoutDisjoint(kids, k);
    SplitAt(kids, k);
  }

  lemma WithoutSeparate(kids: seq<Shape>, k: nat)
    requires SeparateAll(kids) && k < |kids|
    ensures SeparateAll(Without(kids, k))
  {
    hide Nodes, Blocks, Separate;
    var ws := Without(kids, k);
    forall i | 0 <= i < |ws|
      ensures Separate(ws[i])
    {
      assert ws[i] == if i < k then kids[i] else kids[i + 1];
    }
    forall i, j | 0 <= i < j < |ws|
      ensures Nodes(ws[i]) !! Nodes(ws[j]) && Blocks(ws[i]) !! Blocks(ws[j])
    {
      assert ws[i] == (if i < k then kids[i] else kids[i + 1]) && ws[j] == if j < k then kids[j] else kids[j + 1];
    }
  }

  lemma WithoutDisjoint(kids: seq<Shape>, k: nat)
    requires SeparateAll(kids) && k < |kids|
    ensures Foot(kids[k]) !! FootAll(Without(kids, k))
  {
    hide Nodes, Blocks, Separate, NodesAll, BlocksAll;
    var ws := Without(kids, k);
    forall n | n in NodesAll(ws)
      ensures n !in Nodes(kids[k])
    {
      var i := FromNodesAll(ws, n);
      assert ws[i] == if i < k then kids[i] else kids[i + 1];
    }
    forall b | b in BlocksAll(ws)
      ensures b !in Blocks(kids[k])
    {
      var i := FromBlocksAll(ws, b);
      assert ws[i] == if i < k then kids[i] else kids[i + 1];
    }
  }

  lemma SplitAt(kids: seq<Shape>, k: nat)
    requires k < |kids|
    ensures NodesAll(kids) == Nodes(kids[k]) + NodesAll(Without(kids, k))
    ensures BlocksAll(kids) == Blocks(kids[k]) + BlocksAll(Without(kids, k))
  {
    hide NodesAll, BlocksAll;
    var a, x, b := kids[..k], [kids[k]], kids[k + 1..];
    assert kids == a + (x + b);
    FootAllAppend(a, x + b);
    FootAllAppend(x, b);
    FootAllAppend(a, b);
    FootAllOne(kids[k]);
  }

  lemma Neighbours(kids: seq<Shape>, k: nat)
    requires Linked(kids) && k < |kids|
    ensures kids[k].node.prev == if k > 0 then kids[k - 1].node else null
    ensures kids[k].node.next == if k + 1 < |kids| then kids[k + 1].node else null
  {
  }

  /** The neighbours of a root are linked with each other. */
  method Bypass(c: Node, ghost kids: seq<Shape>, ghost k: nat)
    requires SeparateAll(kids) && Linked(kids) && k < |kids| && c == kids[k].node
    modifies Roots(kids)`next, Roots(kids)`prev
    ensures Linked(Without(kids, k)) && c.next == old(c.next) && c.prev == old(c.prev)
  {
    hide NodesAll, Separate, SeparateAll, Roots, Without, Nodes, Blocks, BlocksAll;
    RootsDiffer(kids);
    Neighbours(kids, k);
    if c.prev != null { c.prev.next := c.next; }
    if c.next != null { c.next.prev := c.prev; }
    assert LinkedAround(kids, k);
    hide LinkedAround, Linked;
    LinkedWithout(kids, k);
  }

  /** The pointer writes of cJSON_DetachItemFromArray. */
  method Unlink(parent: Node, c: Node, ghost kids: seq<Shape>, ghost k: nat)
    requires parent.child == First(kids) && SeparateAll(kids) && Linked(kids)
    requires k < |kids| && c == kids[k].node
    modifies parent`child, Roots(kids)`next, Roots(kids)`prev
    ensures parent.child == First(Without(kids, k)) && Linked(Without(kids, k)) && c.next == null && c.prev == null
  {
    hide NodesAll, Separate, SeparateAll, Roots, Linked, Nodes, Blocks, BlocksAll;
    RootsDiffer(kids);
    Neighbours(kids, k);
    WithoutApart(kids, k);
    RootInFoot(kids[k]);
    Bypass(c, kids, k);
    if c == parent.child { parent.child := c.next; }
    c.prev, c.next := null, null;
  }

  /** Changing next and prev of roots, and the child of their parent, changes nothing below the roots. */
  lemma RootsOutside(kids: seq<Shape>)
    requires SeparateAll(kids)
    ensures forall i :: 0 <= i < |kids| ==> Roots(kids) !! NodesAll(kids[i].kids)
    ensures forall i :: 0 <= i < |kids| ==> NodesAll(kids[i].kids) <= NodesAll(kids) && kids[i].node in NodesAll(kids)
  {
    RootsApart(kids);
    InnerNodes(kids);
  }

  lemma SameKids(kids: seq<Shape>, ws: seq<Shape>)
    requires forall i :: 0 <= i < |kids| ==> Holds(kids[i])
    requires (forall i :: 0 <= i < |ws| ==> ws[i] in kids) && Linked(ws)
    ensures HoldsAll(ws)
  {
    hide Holds;
  }

  /** The parent with other children. */
  ghost function WithKids(psh: Shape, kids: seq<Shape>): Shape { psh.(kids := kids) }

  /** The root at k is out of the list and stands alone. */
  method DetachRoot(parent: Node, c: Node, ghost psh: Shape, ghost k: nat)
    requires IsParent(parent, psh) && k < |psh.kids| && c == psh.kids[k].node
    modifies parent`child, Roots(psh.kids)`next, Roots(psh.kids)`prev
    ensures IsRoot(c, psh.kids[k]) && IsParent(parent, WithKids(psh, Without(psh.kids, k)))
    ensures Foot(psh.kids[k]) !! Foot(WithKids(psh, Without(psh.kids, k)))
    ensures Foot(psh) == Foot(psh.kids[k]) + Foot(WithKids(psh, Without(psh.kids, k)))
  {
    hide Nodes, NodesAll, Blocks, BlocksAll, Separate, SeparateAll, Holds, HoldsAll, Linked, Roots, Without;
    ghost var kids, ws := psh.kids, Without(psh.kids, k);
    ParentKids(parent, psh);
    FieldsOf(psh);
    PartsOf(psh);
    KidsHold(kids);
    RootsOutside(kids);
    WithoutApart(kids, k);
    Unlink(parent, c, kids, k);
    forall i | 0 <= i < |kids|
      ensures Holds(kids[i])
    {
      assert old(Holds(kids[i])) && old(allocated(NodesAll(kids[i].kids))) && old(allocated(Blocks(kids[i])));
    }
    WithoutMembers(kids, k);
    SameKids(kids, ws);
    ParentHolds(WithKids(psh, ws));
    ParentBuilt(WithKids(psh, ws));
  }

  lemma KidsHold(kids: seq<Shape>)
    requires HoldsAll(kids)
    ensures (forall i :: 0 <= i < |kids| ==> Holds(kids[i])) && Linked(kids)
  {
    hide Holds;
  }

  lemma WithoutMembers(kids: seq<Shape>, k: nat)
    requires k < |kids|
    ensures forall i :: 0 <= i < |Without(kids, k)| ==> Without(kids, k)[i] in kids
  {
    var ws := Without(kids, k);
    assert forall i {:trigger ws[i]} :: 0 <= i < |ws| ==> ws[i] == if i < k then kids[i] else kids[i + 1];
  }

  /** cJSON_DetachItemFromArray: the item at the index leaves the list, if there is one. */
  method DetachItemFromArray(parent: Node, which: int, ghost psh: Shape) returns (c: Node?)
    requires IsParent(parent, psh)
    modifies parent`child, Roots(psh.kids)`next, Roots(psh.kids)`prev
    ensures c == null <==> Index(which) >= |psh.kids|
    ensures c == null ==> IsParent(parent, psh)
    ensures c != null ==>
      var sh, rest := psh.kids[Index(which)], WithKids(psh, Without(psh.kids, Index(which)));
      IsRoot(c, sh) && IsParent(parent, rest) && Foot(sh) !! Foot(rest) && Foot(psh) == Foot(sh) + Foot(rest)
  {
    hide IsParent, IsRoot, Foot, Roots, Without;
    c := Walk(parent, which, psh);
    if c != null {
      DetachRoot(parent, c, psh, Index(which));
    }
  }

  /** cJSON_DeleteItemFromArray */
  method DeleteItemFromArray(lib: Library, parent: Node, which: int, ghost psh: Shape)
    requires IsParent(parent, psh) && Foot(psh) <= lib.live
    modifies lib`live, parent`child, Roots(psh.kids)`next, Roots(psh.kids)`prev
    ensures var k := Index(which);
      if k >= |psh.kids| then IsParent(parent, psh) && lib.live == old(lib.live)
      else IsParent(parent, WithKids(psh, Without(psh.kids, k))) && lib.live == old(lib.live) - Foot(psh.kids[k])
  {
    hide Roots, Without, Nodes, Blocks, Separate, Holds, DeletableAll, OwnedOnceAll, OwnedAll;
    var c := DetachItemFromArray(parent, which, psh);
    if c != null {
      RootIsOwned(psh.kids[Index(which)]);
      Delete(lib, c, [psh.kids[Index(which)]]);
    } else {
      NothingOwned();
      Delete(lib, c, []);
    }
  }

  lemma NothingOwned()
    ensures DeletableAll([]) && OwnedOnceAll([]) && OwnedAll([]) == {}
  {
  }

  // ---------- adding ----------

  /** The last child, or null. */
  method Last(parent: Node, ghost psh: Shape) returns (c: Node?)
    requires IsParent(parent, psh)
    ensures c == if |psh.kids| > 0 then psh.kids[|psh.kids| - 1].node else null
    ensures IsParent(parent, psh)
  {
    hide IsParent, Separate, Holds, HoldsAll, SeparateAll, Nodes, NodesAll, Blocks, BlocksAll;
    ParentKids(parent, psh);
    ghost var kids := psh.kids;
    c := parent.child;
    ghost var i := 0;
    assert kids[0..] == kids;
    if |kids| > 0 { ListStep(kids, 0); }
    while c != null && c.next != null
      invariant HoldsAll(kids) && i <= |kids| && c == First(kids[i..]) && IsParent(parent, psh)
      invariant |kids| > 0 ==> i < |kids| && c != null && c.next == First(kids[i + 1..])
      decreases |kids| - i
    {
      c := c.next;
      i := i + 1;
      ListStep(kids, i);
    }
  }

  /** cJSON_AddItemToArray: the item, which stands alone, becomes the last child. */
  method AddItemToArray(parent: Node, item: Node?, ghost psh: Shape, ghost sh: Option<Shape>)
    requires IsParent(parent, psh)
    requires if item == null then sh.None? else sh.Some? && IsRoot(item, sh.value) && Foot(psh) !! Foot(sh.value)
    modifies parent`child, Roots(psh.kids)`next, (if item == null then {} else {item})`prev
    ensures item == null ==> IsParent(parent, psh)
    ensures item != null ==> IsParent(parent, WithKids(psh, psh.kids + [sh.value]))
    ensures item != null ==> Foot(WithKids(psh, psh.kids + [sh.value])) == Foot(psh) + Foot(sh.value)
  {
    hide IsParent, IsRoot, Nodes, Blocks, Roots, Separate, Holds;
    if item == null { return; }
    assert allocated(Foot(sh.value)) && IsRoot(item, sh.value);
    var c := Last(parent, psh);
    AddLast(parent, c, item, psh, sh.value);
  }

  method AddLast(parent: Node, c: Node?, item: Node, ghost psh: Shape, ghost sh: Shape)
    requires IsParent(parent, psh) && IsRoot(item, sh) && Foot(psh) !! Foot(sh)
    requires c == if |psh.kids| > 0 then psh.kids[|psh.kids| - 1].node else null
    modifies parent`child, Roots(psh.kids)`next, item`prev
    ensures IsParent(parent, WithKids(psh, psh.kids + [sh]))
    ensures Foot(WithKids(psh, psh.kids + [sh])) == Foot(psh) + Foot(sh)
  {
    hide Nodes, NodesAll, Blocks, BlocksAll, Separate, SeparateAll, Holds, HoldsAll, Linked, Roots;
    ParentKids(parent, psh);
    FieldsOf(psh);
    PartsOf(psh);
    RootInFoot(sh);
    RootsOutside(psh.kids);
    RootsDiffer(psh.kids);
    LinkLast(parent, c, item, psh.kids, sh);
    ParentHolds(WithKids(psh, psh.kids + [sh]));
    ParentBuilt(WithKids(psh, psh.kids + [sh]));
  }

  // ---------- replacing ----------

  /** The pointer writes of cJSON_ReplaceItemInArray. */
  method TakePlace(parent: Node, c: Node, newitem: Node, ghost kids: seq<Shape>, ghost k: nat, ghost sh: Shape)
    requires parent.child == First(kids) && SeparateAll(kids) && Linked(kids)
    requires k < |kids| && c == kids[k].node && newitem == sh.node && newitem !in Roots(kids)
    modifies parent`child, newitem`next, newitem`prev, Roots(kids)`next, Roots(kids)`prev
    ensures parent.child == First(kids[k := sh]) && Linked(kids[k := sh]) && c.next == null && c.prev == null
  {
    hide NodesAll, Separate, SeparateAll, Roots, Nodes, Blocks, BlocksAll;
    RootsDiffer(kids);
    Neighbours(kids, k);
    newitem.next := c.next;
    newitem.prev := c.prev;
    if newitem.next != null { newitem.next.prev := newitem; }
    if c == parent.child { parent.child := newitem; } else { newitem.prev.next := newitem; }
    c.next, c.prev := null, null;
  }

  lemma ReplacedApart(kids: seq<Shape>, k: nat, sh: Shape)
    requires SeparateAll(kids) && k < |kids| && Separate(sh) && Foot(sh) !! FootAll(kids)
    ensures SeparateAll(kids[k := sh]) && FootAll(kids[k := sh]) == FootAll(Without(kids, k)) + Foot(sh)
    ensures Foot(kids[k]) !! FootAll(kids[k := sh])
    ensures NodesAll(kids[k := sh]) == NodesAll(Without(kids, k)) + Nodes(sh)
    ensures BlocksAll(kids[k := sh]) == BlocksAll(Without(kids, k)) + Blocks(sh)
  {
    hide Nodes, Blocks, Separate, NodesAll, BlocksAll;
    WithoutApart(kids, k);
    RootsInside(kids);
    SplitAt(kids[k := sh], k);
    assert Without(kids[k := sh], k) == Without(kids, k);
  }

  /** The new item, which stands alone, takes the place of the child at k, and that stands alone. */
  method ReplaceRoot(parent: Node, c: Node, newitem: Node, ghost psh: Shape, ghost k: nat, ghost sh: Shape)
    requires IsParent(parent, psh) && k < |psh.kids| && c == psh.kids[k].node
    requires IsRoot(newitem, sh) && Foot(psh) !! Foot(sh)
    modifies parent`child, newitem`next, newitem`prev, Roots(psh.kids)`next, Roots(psh.kids)`prev
    ensures IsRoot(c, psh.kids[k]) && IsParent(parent, WithKids(psh, psh.kids[k := sh]))
    ensures Foot(psh.kids[k]) !! Foot(WithKids(psh, psh.kids[k := sh])) && Foot(psh.kids[k]) <= Foot(psh)
    ensures Foot(WithKids(psh, psh.kids[k := sh])) == Foot(psh) - Foot(psh.kids[k]) + Foot(sh)
  {
    hide Nodes, NodesAll, Blocks, BlocksAll, Separate, SeparateAll, Holds, HoldsAll, Linked, Roots, Without;
    ghost var kids, ws := psh.kids, psh.kids[k := sh];
    ParentKids(parent, psh);
    FieldsOf(psh);
    PartsOf(psh);
    PartsOf(sh);
    KidsHold(kids);
    RootsOutside(kids);
    WithoutApart(kids, k);
    ReplacedApart(kids, k, sh);
    RootsInNodes(kids);
    TakePlace(parent, c, newitem, kids, k, sh);
    forall i | 0 <= i < |kids|
      ensures Holds(kids[i])
    {
      assert old(Holds(kids[i])) && old(allocated(NodesAll(kids[i].kids))) && old(allocated(Blocks(kids[i])));
    }
    assert old(Holds(sh)) && old(allocated(NodesAll(sh.kids))) && old(allocated(Blocks(sh)));
    SameKids(kids + [sh], ws);
    ParentHolds(WithKids(psh, ws));
    ParentBuilt(WithKids(psh, ws));
  }

  lemma RootsInNodes(kids: seq<Shape>)
    ensures Roots(kids) <= NodesAll(kids)
  {
    hide Nodes, NodesAll;
    forall n | n in Roots(kids)
      ensures n in NodesAll(kids)
    {
      var sh :| sh in kids && sh.node == n;
      var i :| 0 <= i < |kids| && kids[i] == sh;
      InNodesAll(kids, i);
    }
  }

  lemma RootsApartFrom(psh: Shape)
    requires Separate(psh)
    ensures psh.node !in Roots(psh.kids) && Roots(psh.kids) <= Nodes(psh)
  {
    RootsInNodes(psh.kids);
    PartsOf(psh);
  }

  /** cJSON_ReplaceItemInArray: when there is a child at the index, it is deleted and the new item stands there. */
  method ReplaceItemInArray(lib: Library, parent: Node, which: int, newitem: Node, ghost psh: Shape, ghost sh: Shape)
    requires IsParent(parent, psh) && IsRoot(newitem, sh) && Foot(psh) !! Foot(sh) && Foot(psh) <= lib.live
    modifies lib`live, parent`child, newitem`next, newitem`prev, Roots(psh.kids)`next, Roots(psh.kids)`prev
    ensures var k := Index(which);
      if k >= |psh.kids| then IsParent(parent, psh) && IsRoot(newitem, sh) && lib.live == old(lib.live)
      else IsParent(parent, WithKids(psh, psh.kids[k := sh])) && lib.live == old(lib.live) - Foot(psh.kids[k])
    ensures Index(which) < |psh.kids| ==>
      Foot(WithKids(psh, psh.kids[Index(which) := sh])) == Foot(psh) - Foot(psh.kids[Index(which)]) + Foot(sh)
  {
    hide Roots, Nodes, Blocks, Separate, Holds, DeletableAll, OwnedOnceAll, OwnedAll;
    assert allocated(Foot(sh)) && IsRoot(newitem, sh);
    var c := Walk(parent, which, psh);
    if c == null { return; }
    ReplaceRoot(parent, c, newitem, psh, Index(which), sh);
    RootIsOwned(psh.kids[Index(which)]);
    Delete(lib, c, [psh.kids[Index(which)]]);
  }
}
