/**
 Any sequence of edits anywhere in a structure, by index and by name, with items that come and go: the structure
 and the items that stand alone are always those that the same edits make of the shapes, they stay separate and
 linked both ways, and the ledger is exact.
 */
module EditRun {
  import opened Bytes
  import opened Heap
  import opened Tree
  import opened Links
  import opened Lifetime
  import opened Edit
  import opened Names
  import opened Duplicate

  datatype ListEdit =
    | Append(item: Node)
    | Remove(which: int)
    | Detach(which: int)
    | Exchange(which: int, item: Node)
    | AppendAs(name: seq<byte>, item: Node)
    | RemoveNamed(name: seq<byte>)
    | DetachNamed(name: seq<byte>)
    | ExchangeNamed(name: seq<byte>, item: Node)
  {
    predicate IsNamed() { AppendAs? || RemoveNamed? || DetachNamed? || ExchangeNamed? }

    predicate NeedsItem() { Append? || Exchange? || AppendAs? || ExchangeNamed? }

    predicate Renames() { AppendAs? || ExchangeNamed? }
  }

  // ---------- the edits on sequences ----------

  /** What edits look at in a structure: nodes, their names and their children. */
  datatype Kid = Kid(node: Node, name: Option<seq<byte>>, kids: seq<Kid>)

  ghost function KidOf(sh: Shape): Kid
    decreases sh
  {
    Kid(sh.node, if sh.name.None? then None else Some(sh.name.value.text), KidsOf(sh.kids))
  }

  ghost function KidsOf(shs: seq<Shape>): (ks: seq<Kid>)
    ensures |ks| == |shs| && forall i :: 0 <= i < |shs| ==> ks[i] == KidOf(shs[i])
    decreases shs
  {
    if |shs| == 0 then [] else [KidOf(shs[0])] + KidsOf(shs[1..])
  }

  predicate HasName(k: Kid, name: seq<byte>) { k.name.Some? && EqualIgnoringCase(k.name.value, name) }

  /** The index of the first one with the name, or their number. */
  function FirstWith(ks: seq<Kid>, name: seq<byte>): (i: nat)
    ensures i <= |ks| && (i < |ks| ==> HasName(ks[i], name)) && forall k :: 0 <= k < i ==> !HasName(ks[k], name)
  {
    if |ks| == 0 || HasName(ks[0], name) then 0 else 1 + FirstWith(ks[1..], name)
  }

  /** The index of the child that an edit is about; it may be behind the end. */
  function Target(ks: seq<Kid>, e: ListEdit): nat {
    match e
    case Append(_) => |ks|
    case AppendAs(_, _) => |ks|
    case Remove(which) => Index(which)
    case Detach(which) => Index(which)
    case Exchange(which, _) => Index(which)
    case RemoveNamed(name) => FirstWith(ks, name)
    case DetachNamed(name) => FirstWith(ks, name)
    case ExchangeNamed(name, _) => FirstWith(ks, name)
  }

  /** The index of a node, or their number. */
  ghost function Find(ks: seq<Kid>, n: Node): (j: nat)
    ensures j <= |ks| && (j < |ks| ==> ks[j].node == n)
  {
    if |ks| == 0 || ks[0].node == n then 0 else 1 + Find(ks[1..], n)
  }

  /** The item of an edit stands alone when it is made, and a name is a C string. */
  ghost predicate Enabled(loose: seq<Kid>, e: ListEdit) {
    (e.NeedsItem() ==> Find(loose, e.item) < |loose|) && (e.IsNamed() ==> NulFree(e.name))
  }

  datatype Lists<T> = Lists(kids: seq<T>, loose: seq<T>)

  /**
   The children and the items that stand alone, after an edit about the child at k and the item at j, which has
   become x.
   */
  ghost function Moved<T>(kids: seq<T>, loose: seq<T>, e: ListEdit, k: nat, j: nat, x: seq<T>): Lists<T>
    requires e.NeedsItem() ==> j < |loose| && |x| == 1
  {
    if e.Append? || e.AppendAs? then Lists(kids + x, Without(loose, j))
    else if k >= |kids| then Lists(kids, loose)
    else if e.Remove? || e.RemoveNamed? then Lists(Without(kids, k), loose)
    else if e.Detach? || e.DetachNamed? then Lists(Without(kids, k), loose + [kids[k]])
    else Lists(kids[k := x[0]], Without(loose, j))
  }

  /** The item of an edit, as it is afterwards. */
  ghost function Item(loose: seq<Shape>, e: ListEdit, name: Option<Str>): (x: seq<Shape>)
    requires Enabled(KidsOf(loose), e)
    ensures e.NeedsItem() ==> |x| == 1
  {
    if !e.NeedsItem() then []
    else
      var sh := loose[Find(KidsOf(loose), e.item)];
      [if e.Renames() then Renamed(sh, name) else sh]
  }

  ghost function ItemIndex(loose: seq<Shape>, e: ListEdit): nat {
    if e.NeedsItem() then Find(KidsOf(loose), e.item) else 0
  }

  /** The lists after an edit; a renamed item has got the given name. */
  ghost function Edited(kids: seq<Shape>, loose: seq<Shape>, e: ListEdit, name: Option<Str>): Lists<Shape>
    requires Enabled(KidsOf(loose), e)
  {
    Moved(kids, loose, e, Target(KidsOf(kids), e), ItemIndex(loose, e), Item(loose, e, name))
  }

  /** What an edit leaves allocated without an owner: the old name of an item that replaces another by name. */
  ghost function LostBy(kids: seq<Shape>, loose: seq<Shape>, e: ListEdit): set<object>
    requires Enabled(KidsOf(loose), e)
  {
    if e.ExchangeNamed? && Target(KidsOf(kids), e) < |kids| then BlockOf(loose[ItemIndex(loose, e)].name) else {}
  }

  // ---------- items that stand alone ----------

  ghost predicate Alone(loose: seq<Shape>)
    reads NodesAll(loose), BlocksAll(loose)
  {
    RootsInside(loose);
    SeparateAll(loose) && forall i :: 0 <= i < |loose| ==> IsRoot(loose[i].node, loose[i])
  }

  ghost function Feet(psh: Shape, loose: seq<Shape>): set<object> { Foot(psh) + FootAll(loose) }

  /** All that the edits work on. */
  ghost predicate Ready(parent: Node, psh: Shape, loose: seq<Shape>)
    reads parent, Nodes(psh), Blocks(psh), NodesAll(loose), BlocksAll(loose)
  {
    IsParent(parent, psh) && Alone(loose) && Foot(psh) !! FootAll(loose)
  }

  /** The item at j apart from the others. */
  lemma TakeOut(loose: seq<Shape>, j: nat)
    requires SeparateAll(loose) && j < |loose|
    ensures SeparateAll(Without(loose, j)) && Separate(loose[j]) && Foot(loose[j]) !! FootAll(Without(loose, j))
    ensures FootAll(loose) == Foot(loose[j]) + FootAll(Without(loose, j))
    ensures NodesAll(loose) == Nodes(loose[j]) + NodesAll(Without(loose, j))
    ensures forall i :: 0 <= i < |Without(loose, j)| ==>
      Without(loose, j)[i] in loose && Foot(Without(loose, j)[i]) <= FootAll(Without(loose, j))
  {
    hide Nodes, Blocks, NodesAll, BlocksAll, Separate;
    WithoutApart(loose, j);
    WithoutMembers(loose, j);
    RootsInside(Without(loose, j));
  }

  lemma AloneAt(loose: seq<Shape>, j: nat)
    requires Alone(loose) && j < |loose|
    ensures IsRoot(loose[j].node, loose[j]) && Foot(loose[j]) <= FootAll(loose)
  {
    hide Nodes, Blocks, Separate, Holds, SeparateAll;
    RootsInside(loose);
  }

  /** One more item that stands alone. */
  lemma OneMoreAlone(loose: seq<Shape>, sh: Shape)
    requires Alone(loose) && IsRoot(sh.node, sh) && Foot(sh) !! FootAll(loose)
    ensures Alone(loose + [sh]) && FootAll(loose + [sh]) == FootAll(loose) + Foot(sh)
    ensures NodesAll(loose + [sh]) == NodesAll(loose) + Nodes(sh)
  {
    hide Nodes, Blocks, Separate, Holds, SeparateAll, IsRoot;
    assert SeparateAll(loose) && Separate(sh) by { RootIsSeparate(sh); }
    AppendShape(loose, sh);
  }

  lemma RootIsSeparate(sh: Shape)
    requires IsRoot(sh.node, sh)
    ensures Separate(sh)
  {
  }

  // ---------- the ledger ----------

  /**
   Nothing joins what the edits work on but the block of a new name, what is lost leaves it, and the ledger changes
   as it does, but for what is lost.
   */
  ghost predicate Accounts(feet: set<object>, n: Option<Str>, lost: set<object>, feet': set<object>,
                           live: set<object>, live': set<object>) {
    feet' <= feet + BlockOf(n) && lost <= feet && lost !! feet' && live' == live - feet + feet' + lost
  }

  lemma SameParts(feet: set<object>, live: set<object>)
    requires feet <= live
    ensures Accounts(feet, None, {}, feet, live, live)
  {
  }

  /** A part of the structure is freed. */
  lemma PartLeaves(p: set<object>, l: set<object>, part: set<object>, p': set<object>, live: set<object>,
                   live': set<object>)
    requires p !! l && part <= p && p + l <= live && p' == p - part && live' == live - part
    ensures Accounts(p + l, None, {}, p' + l, live, live')
  {
  }

  /** An item joins the structure, where part of it may be freed. */
  lemma ItemJoins(p: set<object>, item: set<object>, rest: set<object>, part: set<object>,
                  p': set<object>, live: set<object>, live': set<object>)
    requires item !! rest && p !! item + rest && part <= p && p + item + rest <= live
    requires p' == p - part + item && live' == live - part
    ensures Accounts(p + (item + rest), None, {}, p' + rest, live, live')
  {
  }

  /** The same with a new name for the item; the old one is freed or lost. */
  lemma NamedItemJoins(p: set<object>, item: set<object>, rest: set<object>, part: set<object>, name: set<object>,
                       lost: set<object>, n: Option<Str>, p': set<object>, live: set<object>, live': set<object>)
    requires item !! rest && p !! item + rest && part <= p && p + item + rest <= live && name <= item
    requires BlockOf(n) !! live
    requires p' == p - part + item - name + BlockOf(n) && lost in {{}, name}
    requires live' == live - part - (name - lost) + BlockOf(n)
    ensures Accounts(p + (item + rest), n, lost, p' + rest, live, live')
  {
  }

  // ---------- one edit ----------

  /** cJSON_AddItemToArray */
  method AppendItem(parent: Node, item: Node, ghost psh: Shape, ghost loose: seq<Shape>, ghost j: nat)
    requires Ready(parent, psh, loose) && j < |loose| && loose[j].node == item
    modifies parent`child, Roots(psh.kids)`next, item`prev
    ensures Ready(parent, WithKids(psh, psh.kids + [loose[j]]), Without(loose, j))
    ensures Feet(WithKids(psh, psh.kids + [loose[j]]), Without(loose, j)) == Feet(psh, loose)
  {
    hide IsParent, IsRoot, Nodes, Blocks, NodesAll, BlocksAll, Separate, SeparateAll, Holds, Roots, Without;
    ghost var rest := Without(loose, j);
    AloneAt(loose, j);
    TakeOut(loose, j);
    ReadyParts(parent, psh);
    ItemInFoot(loose[j]);
    assert allocated(FootAll(loose)) && forall i :: 0 <= i < |rest| ==> IsRoot(rest[i].node, rest[i]);
    AddItemToArray(parent, item, psh, Some(loose[j]));
  }

  lemma ReadyParts(parent: Node, psh: Shape)
    requires IsParent(parent, psh)
    ensures parent in Nodes(psh) && Roots(psh.kids) <= Nodes(psh) && parent !in Roots(psh.kids)
  {
    RootInFoot(psh);
    RootsApartFrom(psh);
  }

  lemma ItemInFoot(sh: Shape)
    ensures sh.node in Foot(sh) && sh.node in Nodes(sh) && BlockOf(sh.name) <= Foot(sh)
  {
  }

  /** cJSON_AddItemToObject */
  method AppendItemAs(lib: Library, parent: Node, name: seq<byte>, item: Node, ghost psh: Shape,
                      ghost loose: seq<Shape>, ghost j: nat)
    returns (ghost n: Option<Str>)
    requires Ready(parent, psh, loose) && j < |loose| && loose[j].node == item && NulFree(name)
    requires Feet(psh, loose) <= lib.live
    modifies lib`live, lib`failures, parent`child, Roots(psh.kids)`next, item`prev, item`name
    ensures Ready(parent, WithKids(psh, psh.kids + [Renamed(loose[j], n)]), Without(loose, j))
    ensures fresh(BlockOf(n)) && var after := Feet(WithKids(psh, psh.kids + [Renamed(loose[j], n)]), Without(loose, j));
      Accounts(Feet(psh, loose), n, {}, after, old(lib.live), lib.live)
    ensures if n.None? then lib.failures > old(lib.failures)
      else n.value.text == name && lib.failures == old(lib.failures)
  {
    hide IsParent, IsRoot, Nodes, Blocks, NodesAll, BlocksAll, Separate, SeparateAll, Holds, Roots, Without, CString;
    hide Accounts;
    ghost var rest := Without(loose, j);
    AloneAt(loose, j);
    TakeOut(loose, j);
    ReadyParts(parent, psh);
    ItemInFoot(loose[j]);
    assert allocated(FootAll(loose)) && allocated(Foot(psh)) && forall i :: 0 <= i < |rest| ==>
      IsRoot(rest[i].node, rest[i]);
    var str := Literal(name);
    assert IsParent(parent, psh) && IsRoot(item, loose[j]);
    n := AddItemToObject(lib, parent, str, item, psh, Some(loose[j]), name);
    ghost var after := Foot(WithKids(psh, psh.kids + [Renamed(loose[j], n)]));
    NamedItemJoins(Foot(psh), Foot(loose[j]), FootAll(rest), {}, BlockOf(loose[j].name), {}, n, after,
                   old(lib.live), lib.live);
  }

  /** cJSON_DetachItemFromArray */
  method DetachChild(parent: Node, which: int, ghost psh: Shape, ghost loose: seq<Shape>)
    requires Ready(parent, psh, loose)
    modifies parent`child, Roots(psh.kids)`next, Roots(psh.kids)`prev
    ensures Index(which) >= |psh.kids| ==> Ready(parent, psh, loose)
    ensures Index(which) < |psh.kids| ==>
      Ready(parent, WithKids(psh, Without(psh.kids, Index(which))), loose + [psh.kids[Index(which)]])
    ensures Index(which) < |psh.kids| ==>
      Feet(WithKids(psh, Without(psh.kids, Index(which))), loose + [psh.kids[Index(which)]]) == Feet(psh, loose)
  {
    hide IsParent, IsRoot, Nodes, Blocks, NodesAll, BlocksAll, Separate, SeparateAll, Holds, Roots, Without;
    ReadyParts(parent, psh);
    AloneFeet(loose);
    assert allocated(FootAll(loose));
    var c := DetachItemFromArray(parent, which, psh);
    if c != null {
      RootNode(c, psh.kids[Index(which)]);
      OneMoreAlone(loose, psh.kids[Index(which)]);
    }
  }

  lemma RootNode(c: Node, sh: Shape)
    requires IsRoot(c, sh)
    ensures c == sh.node
  {
  }

  lemma AloneFeet(loose: seq<Shape>)
    requires Alone(loose)
    ensures SeparateAll(loose)
    ensures forall i :: 0 <= i < |loose| ==> Foot(loose[i]) <= FootAll(loose) && IsRoot(loose[i].node, loose[i])
  {
    hide Nodes, Blocks, Separate, Holds, SeparateAll, IsRoot;
    RootsInside(loose);
  }

  /** cJSON_DeleteItemFromArray */
  method RemoveChild(lib: Library, parent: Node, which: int, ghost psh: Shape, ghost loose: seq<Shape>)
    requires Ready(parent, psh, loose) && Feet(psh, loose) <= lib.live
    modifies lib`live, parent`child, Roots(psh.kids)`next, Roots(psh.kids)`prev
    ensures Index(which) >= |psh.kids| ==> Ready(parent, psh, loose) && lib.live == old(lib.live)
    ensures Index(which) < |psh.kids| ==> Ready(parent, WithKids(psh, Without(psh.kids, Index(which))), loose)
    ensures Index(which) < |psh.kids| ==> Accounts(Feet(psh, loose), None, {},
      Feet(WithKids(psh, Without(psh.kids, Index(which))), loose), old(lib.live), lib.live)
  {
    hide IsParent, IsRoot, Nodes, Blocks, NodesAll, BlocksAll, Separate, SeparateAll, Holds, Roots, Without, Accounts;
    ReadyParts(parent, psh);
    AloneFeet(loose);
    ParentIsSeparate(parent, psh);
    ghost var k := Index(which);
    if k < |psh.kids| { RemovedFoot(psh, k); }
    assert allocated(FootAll(loose));
    DeleteItemFromArray(lib, parent, which, psh);
    if k < |psh.kids| {
      ghost var after := Foot(WithKids(psh, Without(psh.kids, k)));
      PartLeaves(Foot(psh), FootAll(loose), Foot(psh.kids[k]), after, old(lib.live), lib.live);
    }
  }

  lemma ParentIsSeparate(parent: Node, psh: Shape)
    requires IsParent(parent, psh)
    ensures Separate(psh)
  {
  }

  /** Without the child at k a structure has all its parts but those of that child. */
  ghost predicate RemovesFoot(psh: Shape, k: nat)
    requires k < |psh.kids|
  {
    Foot(WithKids(psh, Without(psh.kids, k))) == Foot(psh) - Foot(psh.kids[k]) && Foot(psh.kids[k]) <= Foot(psh)
  }

  lemma RemovedFoot(psh: Shape, k: nat)
    requires Separate(psh) && k < |psh.kids|
    ensures RemovesFoot(psh, k)
  {
    hide Nodes, NodesAll, Blocks, BlocksAll, SeparateAll, Without;
    var rest := WithKids(psh, Without(psh.kids, k));
    PartsOf(psh);
    WithoutApart(psh.kids, k);
    ParentBuilt(rest);
    RootInFoot(psh.kids[k]);
  }

  /** cJSON_ReplaceItemInArray */
  method ExchangeChild(lib: Library, parent: Node, which: int, item: Node, ghost psh: Shape, ghost loose: seq<Shape>,
                       ghost j: nat)
    requires Ready(parent, psh, loose) && j < |loose| && loose[j].node == item && Feet(psh, loose) <= lib.live
    modifies lib`live, parent`child, item`next, item`prev, Roots(psh.kids)`next, Roots(psh.kids)`prev
    ensures Index(which) >= |psh.kids| ==> Ready(parent, psh, loose) && lib.live == old(lib.live)
    ensures Index(which) < |psh.kids| ==>
      Ready(parent, WithKids(psh, psh.kids[Index(which) := loose[j]]), Without(loose, j))
    ensures Index(which) < |psh.kids| ==> Accounts(Feet(psh, loose), None, {},
      Feet(WithKids(psh, psh.kids[Index(which) := loose[j]]), Without(loose, j)), old(lib.live), lib.live)
  {
    hide IsParent, IsRoot, Nodes, Blocks, NodesAll, BlocksAll, Separate, SeparateAll, Holds, Roots, Without, Accounts;
    ghost var rest := Without(loose, j);
    AloneAt(loose, j);
    AloneFeet(loose);
    TakeOut(loose, j);
    ReadyParts(parent, psh);
    ItemInFoot(loose[j]);
    ParentIsSeparate(parent, psh);
    if Index(which) < |psh.kids| { RemovedFoot(psh, Index(which)); }
    assert allocated(FootAll(loose)) && forall i :: 0 <= i < |rest| ==> IsRoot(rest[i].node, rest[i]);
    OtherItems(loose, j);
    ReplaceItemInArray(lib, parent, which, item, psh, loose[j]);
    if Index(which) < |psh.kids| {
      ghost var k := Index(which);
      ghost var after := Foot(WithKids(psh, psh.kids[k := loose[j]]));
      ItemJoins(Foot(psh), Foot(loose[j]), FootAll(rest), Foot(psh.kids[k]), after, old(lib.live), lib.live);
    } else {
      forall i | 0 <= i < |loose|
        ensures IsRoot(loose[i].node, loose[i])
      {
        ItemInFoot(loose[i]);
        assert old(IsRoot(loose[i].node, loose[i])) && old(allocated(Foot(loose[i])));
      }
    }
  }

  /** No other item shares anything with the one at j. */
  lemma OtherItems(loose: seq<Shape>, j: nat)
    requires SeparateAll(loose) && j < |loose|
    ensures forall i :: 0 <= i < |loose| && i != j ==> Foot(loose[i]) !! Foot(loose[j])
  {
    hide Separate, Nodes, Blocks;
  }

  // ---------- one edit by name ----------

  /** The first child that cJSON finds by a name is the first with that name. */
  lemma NamedIsFirstWith(kids: seq<Shape>, str: array<byte>, name: seq<byte>)
    ensures Named(kids, Some(Str(str, name))) == FirstWith(KidsOf(kids), name)
  {
    NamedIs(kids, Some(Str(str, name)), FirstWith(KidsOf(kids), name));
  }

  /** cJSON_DetachItemFromObject */
  method DetachByName(parent: Node, name: seq<byte>, ghost psh: Shape, ghost loose: seq<Shape>, ghost k: nat)
    requires Ready(parent, psh, loose) && NulFree(name) && k == FirstWith(KidsOf(psh.kids), name)
    modifies parent`child, Roots(psh.kids)`next, Roots(psh.kids)`prev
    ensures k == |psh.kids| ==> Ready(parent, psh, loose)
    ensures k < |psh.kids| ==> Ready(parent, WithKids(psh, Without(psh.kids, k)), loose + [psh.kids[k]])
    ensures k < |psh.kids| ==> Feet(WithKids(psh, Without(psh.kids, k)), loose + [psh.kids[k]]) == Feet(psh, loose)
  {
    hide IsParent, IsRoot, Nodes, Blocks, NodesAll, BlocksAll, Separate, SeparateAll, Holds, Roots, Without;
    hide FirstWith, Named, CString, KidOf, KidsOf;
    ReadyParts(parent, psh);
    AloneFeet(loose);
    assert allocated(FootAll(loose)) && allocated(Foot(psh)) && IsParent(parent, psh);
    var str := Literal(name);
    NamedIsFirstWith(psh.kids, str, name);
    var c := DetachItemFromObject(parent, str, psh, Some(Str(str, name)));
    if c != null {
      RootNode(c, psh.kids[k]);
      OneMoreAlone(loose, psh.kids[k]);
    }
  }

  /** cJSON_DeleteItemFromObject */
  method RemoveByName(lib: Library, parent: Node, name: seq<byte>, ghost psh: Shape, ghost loose: seq<Shape>,
                      ghost k: nat)
    requires Ready(parent, psh, loose) && NulFree(name) && k == FirstWith(KidsOf(psh.kids), name)
    requires Feet(psh, loose) <= lib.live
    modifies lib`live, parent`child, Roots(psh.kids)`next, Roots(psh.kids)`prev
    ensures k == |psh.kids| ==> Ready(parent, psh, loose) && lib.live == old(lib.live)
    ensures k < |psh.kids| ==> Ready(parent, WithKids(psh, Without(psh.kids, k)), loose)
    ensures k < |psh.kids| ==> Accounts(Feet(psh, loose), None, {},
      Feet(WithKids(psh, Without(psh.kids, k)), loose), old(lib.live), lib.live)
  {
    hide IsParent, IsRoot, Nodes, Blocks, NodesAll, BlocksAll, Separate, SeparateAll, Holds, Roots, Without;
    hide FirstWith, Named, CString, KidOf, KidsOf, Accounts;
    ReadyParts(parent, psh);
    AloneFeet(loose);
    ParentIsSeparate(parent, psh);
    if k < |psh.kids| { RemovedFoot(psh, k); }
    assert allocated(FootAll(loose)) && allocated(Foot(psh)) && IsParent(parent, psh);
    var str := Literal(name);
    NamedIsFirstWith(psh.kids, str, name);
    DeleteItemFromObject(lib, parent, str, psh, Some(Str(str, name)));
    if k < |psh.kids| {
      ghost var after := Foot(WithKids(psh, Without(psh.kids, k)));
      PartLeaves(Foot(psh), FootAll(loose), Foot(psh.kids[k]), after, old(lib.live), lib.live);
    }
  }

  /** cJSON_ReplaceItemInObject */
  method ExchangeByName(lib: Library, parent: Node, name: seq<byte>, item: Node, ghost psh: Shape,
                        ghost loose: seq<Shape>, ghost j: nat, ghost k: nat)
    returns (ghost n: Option<Str>)
    requires Ready(parent, psh, loose) && j < |loose| && loose[j].node == item && Feet(psh, loose) <= lib.live
    requires NulFree(name) && k == FirstWith(KidsOf(psh.kids), name)
    modifies lib`live, lib`failures, parent`child, item`next, item`prev, item`name, Roots(psh.kids)`next
    modifies Roots(psh.kids)`prev
    ensures fresh(BlockOf(n))
    ensures k == |psh.kids| ==>
      n == None && Ready(parent, psh, loose) && lib.live == old(lib.live) && lib.failures == old(lib.failures)
    ensures k < |psh.kids| ==> Ready(parent, WithKids(psh, psh.kids[k := Renamed(loose[j], n)]), Without(loose, j))
    ensures k < |psh.kids| ==> Accounts(Feet(psh, loose), n, BlockOf(loose[j].name),
      Feet(WithKids(psh, psh.kids[k := Renamed(loose[j], n)]), Without(loose, j)), old(lib.live), lib.live)
    ensures k < |psh.kids| ==>
      if n.None? then lib.failures > old(lib.failures) else n.value.text == name && lib.failures == old(lib.failures)
  {
    hide IsParent, IsRoot, Nodes, Blocks, NodesAll, BlocksAll, Separate, SeparateAll, Holds, Roots, Without;
    hide FirstWith, Named, CString, KidOf, KidsOf, Accounts;
    ghost var rest := Without(loose, j);
    AloneAt(loose, j);
    AloneFeet(loose);
    TakeOut(loose, j);
    OtherItems(loose, j);
    ReadyParts(parent, psh);
    ItemInFoot(loose[j]);
    ParentIsSeparate(parent, psh);
    if k < |psh.kids| { RemovedFoot(psh, k); }
    assert allocated(FootAll(loose)) && allocated(Foot(psh)) && forall i :: 0 <= i < |rest| ==>
      IsRoot(rest[i].node, rest[i]);
    var str := Literal(name);
    NamedIsFirstWith(psh.kids, str, name);
    assert IsParent(parent, psh) && IsRoot(item, loose[j]);
    n := ReplaceItemInObject(lib, parent, str, item, psh, loose[j], name);
    if k < |psh.kids| {
      ghost var after, was := Foot(WithKids(psh, psh.kids[k := Renamed(loose[j], n)])), BlockOf(loose[j].name);
      NamedItemJoins(Foot(psh), Foot(loose[j]), FootAll(rest), Foot(psh.kids[k]), was, was, n, after,
                     old(lib.live), lib.live);
    } else {
      forall i | 0 <= i < |loose|
        ensures IsRoot(loose[i].node, loose[i])
      {
        ItemInFoot(loose[i]);
        assert old(IsRoot(loose[i].node, loose[i])) && old(allocated(Foot(loose[i])));
      }
    }
  }

  // ---------- any edit ----------

  /** The edit gives its item a new name. */
  ghost predicate GivesName(kids: seq<Shape>, e: ListEdit) {
    e.AppendAs? || (e.ExchangeNamed? && Target(KidsOf(kids), e) < |kids|)
  }

  /** The new name is there unless an allocation failed. */
  ghost predicate NameIsGiven(names: bool, e: ListEdit, n: Option<Str>, failures: nat, failures': nat) {
    if !names || !e.IsNamed() then n.None? && failures' == failures
    else if n.None? then failures' > failures
    else n.value.text == e.name && failures' == failures
  }

  /** One edit, whatever it is: the lists are the edited ones, and the ledger changes as they do. */
  method Apply(lib: Library, parent: Node, e: ListEdit, ghost psh: Shape, ghost loose: seq<Shape>)
    returns (ghost n: Option<Str>)
    requires Ready(parent, psh, loose) && Enabled(KidsOf(loose), e) && Feet(psh, loose) <= lib.live
    modifies lib`live, lib`failures, Nodes(psh)`next, Nodes(psh)`prev, Nodes(psh)`child
    modifies NodesAll(loose)`next, NodesAll(loose)`prev, NodesAll(loose)`name
    ensures var l := Edited(psh.kids, loose, e, n); Ready(parent, WithKids(psh, l.kids), l.loose)
    ensures var l, lost := Edited(psh.kids, loose, e, n), LostBy(psh.kids, loose, e);
      Accounts(Feet(psh, loose), n, lost, Feet(WithKids(psh, l.kids), l.loose), old(lib.live), lib.live)
    ensures fresh(BlockOf(n)) && NameIsGiven(GivesName(psh.kids, e), e, n, old(lib.failures), lib.failures)
    ensures parent.next == old(parent.next) && parent.prev == old(parent.prev)
  {
    hide IsParent, IsRoot, Nodes, Blocks, NodesAll, BlocksAll, Separate, SeparateAll, Holds, Roots, Without, Alone;
    hide FirstWith, Find, EqualIgnoringCase, KidOf, KidsOf, Accounts, Feet;
    n := None;
    ghost var k, j := Target(KidsOf(psh.kids), e), ItemIndex(loose, e);
    ReadyIs(parent, psh, loose);
    SameParts(Feet(psh, loose), lib.live);
    assert WithKids(psh, psh.kids) == psh;
    if e.NeedsItem() {
      ItemFound(loose, e);
      ItemIn(loose, j);
    }
    match e
    case Append(item) =>
      AppendItem(parent, item, psh, loose, j);
    case AppendAs(name, item) =>
      n := AppendItemAs(lib, parent, name, item, psh, loose, j);
    case Remove(which) =>
      RemoveChild(lib, parent, which, psh, loose);
    case Detach(which) =>
      DetachChild(parent, which, psh, loose);
    case Exchange(which, item) =>
      ExchangeChild(lib, parent, which, item, psh, loose, j);
    case RemoveNamed(name) =>
      RemoveByName(lib, parent, name, psh, loose, k);
    case DetachNamed(name) =>
      DetachByName(parent, name, psh, loose, k);
    case ExchangeNamed(name, item) =>
      n := ExchangeByName(lib, parent, name, item, psh, loose, j, k);
  }

  lemma ReadyIs(parent: Node, psh: Shape, loose: seq<Shape>)
    requires Ready(parent, psh, loose)
    ensures parent in Nodes(psh) && Roots(psh.kids) <= Nodes(psh) && SeparateAll(loose) && Foot(psh) !! FootAll(loose)
    ensures parent !in Roots(psh.kids) && parent !in NodesAll(loose)
  {
    hide Nodes, Blocks, Separate, Holds, SeparateAll, IsParent, IsRoot, Roots;
    ReadyParts(parent, psh);
    AloneFeet(loose);
  }

  lemma {:induction false} ItemFound(loose: seq<Shape>, e: ListEdit)
    requires Enabled(KidsOf(loose), e) && e.NeedsItem()
    ensures ItemIndex(loose, e) < |loose| && loose[ItemIndex(loose, e)].node == e.item
  {
  }

  lemma ItemIn(loose: seq<Shape>, j: nat)
    requires j < |loose|
    ensures loose[j].node in NodesAll(loose) && BlockOf(loose[j].name) <= Foot(loose[j])
  {
    hide NodesAll, Nodes, Blocks;
    RootsInside(loose);
    NameInFoot(loose[j]);
  }

  // ---------- an edit anywhere ----------

  ghost predicate HasPath(k: Kid, path: seq<nat>)
    decreases |path|
  {
    |path| == 0 || (path[0] < |k.kids| && HasPath(k.kids[path[0]], path[1..]))
  }

  /** The structure that a path leads to. */
  ghost function Sub(sh: Shape, path: seq<nat>): Shape
    requires HasPath(KidOf(sh), path)
    decreases |path|
  {
    if |path| == 0 then sh else Sub(sh.kids[path[0]], path[1..])
  }

  /** The structure with other children there. */
  ghost function Put(sh: Shape, path: seq<nat>, kids: seq<Shape>): Shape
    requires HasPath(KidOf(sh), path)
    decreases |path|
  {
    if |path| == 0 then WithKids(sh, kids) else WithKids(sh, sh.kids[path[0] := Put(sh.kids[path[0]], path[1..], kids)])
  }

  /** A child is as ready as the structure that it is in. */
  lemma KidReady(root: Node, rsh: Shape, loose: seq<Shape>, i: nat)
    requires Ready(root, rsh, loose) && i < |rsh.kids|
    ensures Ready(rsh.kids[i].node, rsh.kids[i], loose) && Foot(rsh.kids[i]) <= Foot(rsh)
    ensures Nodes(rsh.kids[i]) <= Nodes(rsh)
    ensures RemovesFoot(rsh, i) && root !in Foot(rsh.kids[i])
  {
    hide Nodes, Blocks, NodesAll, BlocksAll, Separate, SeparateAll, Holds, HoldsAll, Alone, RemovesFoot;
    ParentKids(root, rsh);
    ParentIsSeparate(root, rsh);
    KidsHold(rsh.kids);
    KidApart(rsh.kids, i);
    PartsOf(rsh);
    RemovedFoot(rsh, i);
    RootInFoot(rsh.kids[i]);
  }

  lemma KidApart(kids: seq<Shape>, i: nat)
    requires SeparateAll(kids) && i < |kids|
    ensures Separate(kids[i]) && Nodes(kids[i]) <= NodesAll(kids) && Blocks(kids[i]) <= BlocksAll(kids)
  {
    hide Nodes, Blocks, NodesAll, BlocksAll, Separate;
    InNodesAll(kids, i);
  }

  /** Another structure in the place of a child, which shares nothing with the rest. */
  lemma PutTogether(rsh: Shape, i: nat, kid: Shape)
    requires Separate(rsh) && i < |rsh.kids| && Separate(kid) && Foot(kid) !! Foot(WithKids(rsh, Without(rsh.kids, i)))
    ensures Separate(WithKids(rsh, rsh.kids[i := kid]))
    ensures Foot(WithKids(rsh, rsh.kids[i := kid])) == Foot(WithKids(rsh, Without(rsh.kids, i))) + Foot(kid)
  {
    hide Nodes, Blocks, NodesAll, BlocksAll, Separate, SeparateAll;
    var kids, others, rest := rsh.kids, Without(rsh.kids, i), WithKids(rsh, Without(rsh.kids, i));
    PartsOf(rsh);
    WithoutApart(kids, i);
    ParentBuilt(rest);
    SplitAt(kids[i := kid], i);
    assert Without(kids[i := kid], i) == others;
    OneReplaced(kids, i, kid);
    ParentBuilt(WithKids(rsh, kids[i := kid]));
  }

  lemma OneReplaced(kids: seq<Shape>, i: nat, kid: Shape)
    requires SeparateAll(kids) && i < |kids| && Separate(kid) && Foot(kid) !! FootAll(Without(kids, i))
    ensures SeparateAll(kids[i := kid])
  {
    hide Nodes, Blocks, NodesAll, BlocksAll, Separate;
    var others, now := Without(kids, i), kids[i := kid];
    RootsInside(others);
    forall a, b | 0 <= a < b < |now|
      ensures Nodes(now[a]) !! Nodes(now[b]) && Blocks(now[a]) !! Blocks(now[b])
    {
      assert a < i ==> others[a] == kids[a];
      assert b > i ==> others[b - 1] == kids[b];
    }
  }

  /** A list is linked as long as the links of its nodes do not change. */
  twostate lemma StillLinked(kids: seq<Shape>)
    requires old(Linked(kids))
    requires forall m :: 0 <= m < |kids| ==>
      kids[m].node.next == old(kids[m].node.next) && kids[m].node.prev == old(kids[m].node.prev)
    ensures Linked(kids)
  {
    hide NodesAll;
  }

  /** The same list of nodes is linked the same. */
  lemma SameLinks(kids: seq<Shape>, now: seq<Shape>)
    requires Linked(kids) && |now| == |kids| && forall m :: 0 <= m < |kids| ==> now[m].node == kids[m].node
    ensures Linked(now)
  {
    hide NodesAll;
  }

  /** The other children share nothing with the child at i, nor with the items that stand alone. */
  lemma OtherKids(root: Node, rsh: Shape, loose: seq<Shape>, i: nat)
    requires Ready(root, rsh, loose) && i < |rsh.kids|
    ensures HoldsAll(rsh.kids) && Linked(rsh.kids) && Separate(rsh) && root.child == First(rsh.kids)
    ensures RootFields(root, rsh)
    ensures root !in NodesAll(loose) && forall m :: 0 <= m < |rsh.kids| && m != i ==>
      Holds(rsh.kids[m]) && Foot(rsh.kids[m]) !! Foot(rsh.kids[i]) + FootAll(loose)
    ensures forall m :: 0 <= m < |rsh.kids| ==>
      rsh.kids[m].node in Nodes(rsh.kids[m]) && NodesAll(rsh.kids[m].kids) <= Nodes(rsh.kids[m])
  {
    hide Nodes, Blocks, NodesAll, BlocksAll, Separate, SeparateAll, Holds, HoldsAll, Alone, Linked, Roots;
    ReadyIs(root, rsh, loose);
    ParentKids(root, rsh);
    ParentIsSeparate(root, rsh);
    KidsHold(rsh.kids);
    FieldsOf(rsh);
    OtherItems(rsh.kids, i);
    forall m | 0 <= m < |rsh.kids|
      ensures Foot(rsh.kids[m]) <= Foot(rsh) && rsh.kids[m].node in Nodes(rsh.kids[m])
      ensures NodesAll(rsh.kids[m].kids) <= Nodes(rsh.kids[m])
    {
      KidReady(root, rsh, loose, m);
      RootInFoot(rsh.kids[m]);
      ReadyIs(rsh.kids[m].node, rsh.kids[m], loose);
      ParentIsSeparate(rsh.kids[m].node, rsh.kids[m]);
      PartsOf(rsh.kids[m]);
    }
  }

  /** What the shape says of the node itself, but for its children. */
  ghost predicate RootFields(root: Node, sh: Shape)
    reads root, BlockOf(sh.str), BlockOf(sh.name)
  {
    && root == sh.node && root.typ == sh.typ && root.valueint == sh.valueint && root.valuedouble == sh.number
    && StrHolds(root.valuestring, sh.str) && StrHolds(root.name, sh.name)
  }

  /** The structure again, when a child has become another in the same node. */
  lemma Rejoined(root: Node, rsh: Shape, i: nat, kid: Shape)
    requires RootFields(root, rsh) && root.child == First(rsh.kids) && Separate(rsh) && i < |rsh.kids|
    requires Linked(rsh.kids)
    requires forall m :: 0 <= m < |rsh.kids| && m != i ==> Holds(rsh.kids[m])
    requires kid.node == rsh.kids[i].node && IsParent(kid.node, kid)
    requires Foot(kid) !! Foot(WithKids(rsh, Without(rsh.kids, i)))
    ensures IsParent(root, WithKids(rsh, rsh.kids[i := kid]))
    ensures Foot(WithKids(rsh, rsh.kids[i := kid])) == Foot(WithKids(rsh, Without(rsh.kids, i))) + Foot(kid)
  {
    hide Nodes, Blocks, NodesAll, BlocksAll, Separate, SeparateAll, Holds, HoldsAll, Linked, Without;
    var now := rsh.kids[i := kid];
    PutTogether(rsh, i, kid);
    SameLinks(rsh.kids, now);
    SameKids(now, now);
    ParentHolds(WithKids(rsh, now));
  }

  /** Anywhere in the structure: an edit of the children of the node that the path leads to. */
  method ApplyAt(lib: Library, root: Node, path: seq<nat>, e: ListEdit, ghost rsh: Shape, ghost loose: seq<Shape>)
    returns (ghost n: Option<Str>)
    requires Ready(root, rsh, loose) && HasPath(KidOf(rsh), path) && Enabled(KidsOf(loose), e)
    requires Feet(rsh, loose) <= lib.live
    modifies lib`live, lib`failures, Nodes(rsh)`next, Nodes(rsh)`prev, Nodes(rsh)`child
    modifies NodesAll(loose)`next, NodesAll(loose)`prev, NodesAll(loose)`name
    ensures var l := Edited(Sub(rsh, path).kids, loose, e, n); Ready(root, Put(rsh, path, l.kids), l.loose)
    ensures var sub := Sub(rsh, path); var l, lost := Edited(sub.kids, loose, e, n), LostBy(sub.kids, loose, e);
      Accounts(Feet(rsh, loose), n, lost, Feet(Put(rsh, path, l.kids), l.loose), old(lib.live), lib.live)
    ensures fresh(BlockOf(n)) && NameIsGiven(GivesName(Sub(rsh, path).kids, e), e, n, old(lib.failures), lib.failures)
    ensures root.next == old(root.next) && root.prev == old(root.prev)
    decreases |path|
  {
    hide IsParent, IsRoot, Nodes, Blocks, NodesAll, BlocksAll, Separate, SeparateAll, Holds, Roots, Without, Alone;
    hide KidOf, KidsOf, Edited, LostBy, GivesName, NameIsGiven, RemovesFoot, Accounts;
    if |path| == 0 {
      n := Apply(lib, root, e, rsh, loose);
      return;
    }
    PathStep(rsh, path);
    ghost var i, kid := path[0], rsh.kids[path[0]];
    KidReady(root, rsh, loose, i);
    RemovesFootIs(rsh, i);
    OtherKids(root, rsh, loose, i);
    assert allocated(Foot(rsh)) && allocated(FootAll(loose));
    var c := GetArrayItem(root, path[0], rsh);
    n := ApplyAt(lib, c, path[1..], e, kid, loose);
    ghost var l := Edited(Sub(kid, path[1..]).kids, loose, e, n);
    ghost var after, lost := Put(kid, path[1..], l.kids), LostBy(Sub(kid, path[1..]).kids, loose, e);
    forall m | 0 <= m < |rsh.kids| && m != i
      ensures Holds(rsh.kids[m])
    {
      assert old(Holds(rsh.kids[m])) && old(allocated(Foot(rsh.kids[m])));
    }
    StillLinked(rsh.kids);
    PutNode(kid, path[1..], l.kids);
    PutStep(rsh, path, l.kids);
    ghost var rest := Foot(WithKids(rsh, Without(rsh.kids, i)));
    FeetAbove(Foot(kid), rest, FootAll(loose), Foot(after), FootAll(l.loose), n, lost, old(lib.live), lib.live);
    Rejoined(root, rsh, i, after);
    assert Feet(rsh, loose) == Foot(kid) + rest + FootAll(loose);
  }

  lemma RemovesFootIs(psh: Shape, k: nat)
    requires k < |psh.kids| && RemovesFoot(psh, k)
    ensures Foot(WithKids(psh, Without(psh.kids, k))) == Foot(psh) - Foot(psh.kids[k]) && Foot(psh.kids[k]) <= Foot(psh)
  {
  }

  lemma PutStep(rsh: Shape, path: seq<nat>, kids: seq<Shape>)
    requires HasPath(KidOf(rsh), path) && |path| > 0
    ensures path[0] < |rsh.kids| && HasPath(KidOf(rsh.kids[path[0]]), path[1..])
    ensures Put(rsh, path, kids) == WithKids(rsh, rsh.kids[path[0] := Put(rsh.kids[path[0]], path[1..], kids)])
  {
  }

  /** What happens to the parts of a child and of the loose items, seen from the structure that the child is in. */
  lemma FeetAbove(kid: set<object>, rest: set<object>, loose: set<object>, kid': set<object>, loose': set<object>,
                  n: Option<Str>, lost: set<object>, live: set<object>, live': set<object>)
    requires kid !! rest && kid + rest !! loose && BlockOf(n) !! rest && kid + rest + loose <= live
    requires Accounts(kid + loose, n, lost, kid' + loose', live, live')
    ensures kid' !! rest && loose' !! rest
    ensures Accounts(kid + rest + loose, n, lost, rest + kid' + loose', live, live')
  {
  }

  lemma PutNode(sh: Shape, path: seq<nat>, kids: seq<Shape>)
    requires HasPath(KidOf(sh), path)
    ensures Put(sh, path, kids).node == sh.node
  {
  }

  lemma PathStep(rsh: Shape, path: seq<nat>)
    requires HasPath(KidOf(rsh), path) && |path| > 0
    ensures path[0] < |rsh.kids| && HasPath(KidOf(rsh.kids[path[0]]), path[1..])
    ensures Sub(rsh, path) == Sub(rsh.kids[path[0]], path[1..])
  {
  }

  // ---------- any sequence of edits ----------

  /** An edit of the children of the node that a path leads to. */
  datatype EditAt = EditAt(path: seq<nat>, edit: ListEdit)

  /** The structure and the items that stand alone, after an edit. */
  ghost function Step(rsh: Shape, loose: seq<Shape>, at: EditAt, n: Option<Str>): (Shape, seq<Shape>)
    requires Possible(KidOf(rsh), KidsOf(loose), at)
  {
    var l := Edited(Sub(rsh, at.path).kids, loose, at.edit, n);
    (Put(rsh, at.path, l.kids), l.loose)
  }

  /** The path is there, and so is the item. */
  ghost predicate Possible(root: Kid, loose: seq<Kid>, at: EditAt) {
    HasPath(root, at.path) && Enabled(loose, at.edit)
  }

  /** The edits can be made one after another, where the renamed items get the given names. */
  ghost predicate Valid(rsh: Shape, loose: seq<Shape>, es: seq<EditAt>, names: seq<Option<Str>>)
    decreases |es|
  {
    && |names| == |es|
    && (|es| == 0 ||
        (&& Possible(KidOf(rsh), KidsOf(loose), es[0])
         && var (r, l) := Step(rsh, loose, es[0], names[0]); Valid(r, l, es[1..], names[1..])))
  }

  ghost function After(rsh: Shape, loose: seq<Shape>, es: seq<EditAt>, names: seq<Option<Str>>): (Shape, seq<Shape>)
    requires Valid(rsh, loose, es, names)
    decreases |es|
  {
    if |es| == 0 then (rsh, loose)
    else
      var (r, l) := Step(rsh, loose, es[0], names[0]);
      After(r, l, es[1..], names[1..])
  }

  /** All that the edits leave allocated without an owner. */
  ghost function LostIn(rsh: Shape, loose: seq<Shape>, es: seq<EditAt>, names: seq<Option<Str>>): set<object>
    requires Valid(rsh, loose, es, names)
    decreases |es|
  {
    if |es| == 0 then {}
    else
      var (r, l) := Step(rsh, loose, es[0], names[0]);
      LostBy(Sub(rsh, es[0].path).kids, loose, es[0].edit) + LostIn(r, l, es[1..], names[1..])
  }

  /** Every new name is there. */
  ghost predicate NamesGiven(rsh: Shape, loose: seq<Shape>, es: seq<EditAt>, names: seq<Option<Str>>)
    requires Valid(rsh, loose, es, names)
    decreases |es|
  {
    |es| == 0 ||
    (&& NameIsGiven(GivesName(Sub(rsh, es[0].path).kids, es[0].edit), es[0].edit, names[0], 0, 0)
     && var (r, l) := Step(rsh, loose, es[0], names[0]); NamesGiven(r, l, es[1..], names[1..]))
  }

  // ---------- which edits can be made ----------

  ghost function SubKid(k: Kid, path: seq<nat>): Kid
    requires HasPath(k, path)
    decreases |path|
  {
    if |path| == 0 then k else SubKid(k.kids[path[0]], path[1..])
  }

  ghost function PutKids(k: Kid, path: seq<nat>, kids: seq<Kid>): Kid
    requires HasPath(k, path)
    decreases |path|
  {
    if |path| == 0 then k.(kids := kids) else k.(kids := k.kids[path[0] := PutKids(k.kids[path[0]], path[1..], kids)])
  }

  ghost function KidItem(loose: seq<Kid>, e: ListEdit, named: bool): (x: seq<Kid>)
    requires Enabled(loose, e)
    ensures e.NeedsItem() ==> |x| == 1
  {
    if !e.NeedsItem() then []
    else
      var k := loose[Find(loose, e.item)];
      [if e.Renames() then k.(name := if named then Some(e.name) else None) else k]
  }

  /** What edits look at, after an edit for which the allocation of a name succeeded or failed. */
  ghost function Planned(root: Kid, loose: seq<Kid>, at: EditAt, named: bool): (Kid, seq<Kid>)
    requires Possible(root, loose, at)
  {
    var sub, e := SubKid(root, at.path).kids, at.edit;
    var j := if e.NeedsItem() then Find(loose, e.item) else 0;
    var l := Moved(sub, loose, e, Target(sub, e), j, KidItem(loose, e, named));
    (PutKids(root, at.path, l.kids), l.loose)
  }

  /** Each edit can be made when its turn comes, whatever allocations fail. */
  ghost predicate AllPossible(root: Kid, loose: seq<Kid>, es: seq<EditAt>)
    decreases |es|
  {
    |es| == 0 ||
    (&& Possible(root, loose, es[0])
     && forall named: bool :: var (r, l) := Planned(root, loose, es[0], named); AllPossible(r, l, es[1..]))
  }

  lemma {:induction false} SubIsKid(sh: Shape, path: seq<nat>)
    requires HasPath(KidOf(sh), path)
    ensures SubKid(KidOf(sh), path) == KidOf(Sub(sh, path))
    decreases |path|
  {
    if |path| > 0 { SubIsKid(sh.kids[path[0]], path[1..]); }
  }

  lemma {:induction false} PutIsKid(sh: Shape, path: seq<nat>, kids: seq<Shape>)
    requires HasPath(KidOf(sh), path)
    ensures KidOf(Put(sh, path, kids)) == PutKids(KidOf(sh), path, KidsOf(kids))
    decreases |path|
  {
    if |path| > 0 {
      PutIsKid(sh.kids[path[0]], path[1..], kids);
      assert KidOf(sh).kids == KidsOf(sh.kids);
    }
  }

  lemma {:induction false} MovedKids(kids: seq<Shape>, loose: seq<Shape>, e: ListEdit, k: nat, j: nat, x: seq<Shape>)
    requires e.NeedsItem() ==> j < |loose| && |x| == 1
    ensures var l, m := Moved(kids, loose, e, k, j, x), Moved(KidsOf(kids), KidsOf(loose), e, k, j, KidsOf(x));
      KidsOf(l.kids) == m.kids && KidsOf(l.loose) == m.loose
  {
    hide KidOf, KidsOf;
  }

  /** What edits look at changes as the shapes do. */
  lemma {:induction false} PlanIsKept(rsh: Shape, loose: seq<Shape>, at: EditAt, n: Option<Str>)
    requires Possible(KidOf(rsh), KidsOf(loose), at) && (n.Some? && at.edit.IsNamed() ==> n.value.text == at.edit.name)
    ensures var (r, l) := Step(rsh, loose, at, n);
      (KidOf(r), KidsOf(l)) == Planned(KidOf(rsh), KidsOf(loose), at, n.Some?)
  {
    hide Moved, Target, Find, KidsOf, Put, PutKids, Sub, SubKid, HasPath, Renamed;
    var e, kids := at.edit, Sub(rsh, at.path).kids;
    var x := Item(loose, e, n);
    SubIsKid(rsh, at.path);
    KidParts(Sub(rsh, at.path));
    MovedKids(kids, loose, e, Target(KidsOf(kids), e), ItemIndex(loose, e), x);
    PutIsKid(rsh, at.path, Edited(kids, loose, e, n).kids);
    assert KidsOf(x) == KidItem(KidsOf(loose), e, n.Some?) by {
      if e.NeedsItem() { RenamedKid(loose[ItemIndex(loose, e)], n); }
    }
  }

  lemma KidParts(sh: Shape)
    ensures KidOf(sh) == Kid(sh.node, if sh.name.None? then None else Some(sh.name.value.text), KidsOf(sh.kids))
  {
  }

  lemma RenamedKid(sh: Shape, n: Option<Str>)
    ensures KidOf(Renamed(sh, n)) == KidOf(sh).(name := if n.None? then None else Some(n.value.text))
  {
  }

  // ---------- the run ----------

  ghost function FeetOf(st: (Shape, seq<Shape>)): set<object> { Feet(st.0, st.1) }

  lemma NodesFollow(rsh: Shape, loose: seq<Shape>, n: Option<Str>, r: Shape, l: seq<Shape>)
    requires Feet(r, l) <= Feet(rsh, loose) + BlockOf(n)
    ensures Nodes(r) + NodesAll(l) <= Nodes(rsh) + NodesAll(loose)
  {
    hide Nodes, NodesAll, Blocks, BlocksAll;
    forall x: Node | x in Nodes(r) + NodesAll(l)
      ensures x in Nodes(rsh) + NodesAll(loose)
    {
      assert x in Feet(r, l);
      assert x in Feet(rsh, loose);
    }
  }

  /**
   A sequence of edits: after each, the structure is separate and linked both ways, the items that stand alone do,
   and nothing is shared; at the end they are those that the edits make of the shapes. The ledger has lost exactly
   what is no longer in them, but for the names that replacing by name leaves behind.
   */
  method Run(lib: Library, root: Node, es: seq<EditAt>, ghost rsh: Shape, ghost loose: seq<Shape>)
    returns (ghost names: seq<Option<Str>>)
    requires Ready(root, rsh, loose) && AllPossible(KidOf(rsh), KidsOf(loose), es) && Feet(rsh, loose) <= lib.live
    modifies lib`live, lib`failures
    modifies (Nodes(rsh) + NodesAll(loose))`next, (Nodes(rsh) + NodesAll(loose))`prev
    modifies (Nodes(rsh) + NodesAll(loose))`child, (Nodes(rsh) + NodesAll(loose))`name
    ensures Valid(rsh, loose, es, names)
    ensures var (r, l) := After(rsh, loose, es, names); Ready(root, r, l)
    ensures var st := After(rsh, loose, es, names);
      lib.live == old(lib.live) - Feet(rsh, loose) + FeetOf(st) + LostIn(rsh, loose, es, names)
    ensures fresh(FeetOf(After(rsh, loose, es, names)) - Feet(rsh, loose))
    ensures lib.failures >= old(lib.failures)
    ensures (lib.failures == old(lib.failures) ==> NamesGiven(rsh, loose, es, names))
    ensures root.next == old(root.next) && root.prev == old(root.prev)
    decreases |es|
  {
    hide Ready, Nodes, NodesAll, Blocks, BlocksAll, KidOf, KidsOf, Feet, Possible, Step, LostBy, Sub, Planned;
    hide GivesName;
    names := [];
    if |es| > 0 {
      ghost var n, rest;
      assert Possible(KidOf(rsh), KidsOf(loose), es[0]);
      PossibleIs(KidOf(rsh), KidsOf(loose), es[0]);
      n := ApplyAt(lib, root, es[0].path, es[0].edit, rsh, loose);
      ghost var (r, l) := Step(rsh, loose, es[0], n);
      StepIs(rsh, loose, es[0], n);
      ghost var lost := LostBy(Sub(rsh, es[0].path).kids, loose, es[0].edit);
      NodesFollow(rsh, loose, n, r, l);
      PlanIsKept(rsh, loose, es[0], n);
      rest := Run(lib, root, es[1..], r, l);
      names := [n] + rest;
      assert names[1..] == rest;
    }
  }

  lemma PossibleIs(root: Kid, loose: seq<Kid>, at: EditAt)
    requires Possible(root, loose, at)
    ensures HasPath(root, at.path) && Enabled(loose, at.edit)
  {
  }

  lemma StepIs(rsh: Shape, loose: seq<Shape>, at: EditAt, n: Option<Str>)
    requires Possible(KidOf(rsh), KidsOf(loose), at)
    ensures var l := Edited(Sub(rsh, at.path).kids, loose, at.edit, n);
      Step(rsh, loose, at, n) == (Put(rsh, at.path, l.kids), l.loose)
  {
  }

  // ---------- what one edit undoes of another ----------

  /** An item that is appended and detached again stands alone as before, and the children are as before. */
  lemma {:induction false} AppendThenDetach(rsh: Shape, loose: seq<Shape>, item: Node)
    requires Find(KidsOf(loose), item) < |loose|
    ensures var es := [EditAt([], Append(item)), EditAt([], Detach(|rsh.kids|))]; var j := Find(KidsOf(loose), item);
      && Valid(rsh, loose, es, [None, None])
      && After(rsh, loose, es, [None, None]) == (rsh, Without(loose, j) + [loose[j]])
  {
    hide Find, Valid, After, Without;
    var es, j := [EditAt([], Append(item)), EditAt([], Detach(|rsh.kids|))], Find(KidsOf(loose), item);
    var r, l := WithKids(rsh, rsh.kids + [loose[j]]), Without(loose, j);
    assert Step(rsh, loose, es[0], None) == (r, l);
    assert Without(r.kids, |rsh.kids|) == rsh.kids by { WithoutLast(rsh.kids, loose[j]); }
    assert Step(r, l, es[1], None) == (rsh, l + [loose[j]]);
    TwoSteps(rsh, loose, es[0], es[1]);
  }

  lemma WithoutLast(kids: seq<Shape>, sh: Shape)
    ensures Without(kids + [sh], |kids|) == kids
  {
  }

  /** A child that is detached and appended again is the last one. */
  lemma {:induction false} DetachThenAppend(rsh: Shape, loose: seq<Shape>, k: nat)
    requires k < |rsh.kids| && forall j :: 0 <= j < |loose| ==> loose[j].node != rsh.kids[k].node
    ensures var es := [EditAt([], Detach(k)), EditAt([], Append(rsh.kids[k].node))];
      && Valid(rsh, loose, es, [None, None])
      && After(rsh, loose, es, [None, None]) == (WithKids(rsh, Without(rsh.kids, k) + [rsh.kids[k]]), loose)
  {
    hide Find, Valid, After, Without;
    var kid := rsh.kids[k];
    var es := [EditAt([], Detach(k)), EditAt([], Append(kid.node))];
    var r, l := WithKids(rsh, Without(rsh.kids, k)), loose + [kid];
    assert Step(rsh, loose, es[0], None) == (r, l);
    FindLast(KidsOf(l), kid.node);
    assert Without(l, |loose|) == loose by { WithoutLast(loose, kid); }
    assert Step(r, l, es[1], None) == (WithKids(rsh, r.kids + [kid]), loose);
    TwoSteps(rsh, loose, es[0], es[1]);
  }

  lemma {:induction false} FindLast(ks: seq<Kid>, n: Node)
    requires |ks| > 0 && ks[|ks| - 1].node == n && forall j :: 0 <= j < |ks| - 1 ==> ks[j].node != n
    ensures Find(ks, n) == |ks| - 1
  {
    if |ks| > 1 { FindLast(ks[1..], n); }
  }

  lemma TwoSteps(rsh: Shape, loose: seq<Shape>, a: EditAt, b: EditAt)
    requires Possible(KidOf(rsh), KidsOf(loose), a)
    requires var (r, l) := Step(rsh, loose, a, None); Possible(KidOf(r), KidsOf(l), b)
    ensures Valid(rsh, loose, [a, b], [None, None])
    ensures var (r, l) := Step(rsh, loose, a, None); After(rsh, loose, [a, b], [None, None]) == Step(r, l, b, None)
  {
    hide Possible, Step;
    var es, names: seq<Option<Str>> := [a, b], [None, None];
    var (r, l) := Step(rsh, loose, a, None);
    assert es[1..] == [b] && names[1..] == [None];
    assert es[1..][1..] == [] && names[1..][1..] == [];
    assert Valid(r, l, es[1..], names[1..]);
    var last := Step(r, l, b, None);
    assert After(r, l, es[1..], names[1..]) == After(last.0, last.1, es[1..][1..], names[1..][1..]);
    assert After(rsh, loose, es, names) == After(r, l, es[1..], names[1..]);
  }

  // ---------- independence ----------

  /**
   Any edits of a structure leave every other structure that shares nothing with it, a copy of it or the original
   of which it is a copy, as it was, with all its parts allocated and still shared with nothing.
   */
  method RunBeside(lib: Library, root: Node, es: seq<EditAt>, other: Node, ghost rsh: Shape, ghost loose: seq<Shape>,
                   ghost osh: Shape)
    returns (ghost names: seq<Option<Str>>)
    requires Ready(root, rsh, loose) && AllPossible(KidOf(rsh), KidsOf(loose), es)
    requires Feet(rsh, loose) + Foot(osh) <= lib.live
    requires IsRoot(other, osh) && Foot(osh) !! Feet(rsh, loose)
    modifies lib`live, lib`failures
    modifies (Nodes(rsh) + NodesAll(loose))`next, (Nodes(rsh) + NodesAll(loose))`prev
    modifies (Nodes(rsh) + NodesAll(loose))`child, (Nodes(rsh) + NodesAll(loose))`name
    ensures Valid(rsh, loose, es, names) && var (r, l) := After(rsh, loose, es, names); Ready(root, r, l)
    ensures IsRoot(other, osh) && Foot(osh) <= lib.live && Foot(osh) !! FeetOf(After(rsh, loose, es, names))
    ensures root.next == old(root.next) && root.prev == old(root.prev)
  {
    hide Ready, Nodes, NodesAll, Blocks, BlocksAll, KidOf, KidsOf, AllPossible, Valid, After, LostIn, NamesGiven;
    hide Separate, Holds;
    RootInFoot(osh);
    assert allocated(Foot(osh)) && IsRoot(other, osh);
    names := Run(lib, root, es, rsh, loose);
  }

  /** A copy does not notice what is done to the original. */
  method DuplicateAndEdit(lib: Library, item: Node, es: seq<EditAt>, ghost sh: Shape, ghost loose: seq<Shape>)
    returns (newitem: Node?, ghost copy: Option<Shape>, ghost names: seq<Option<Str>>)
    requires IsRoot(item, sh) && Ready(item, sh, loose) && AllPossible(KidOf(sh), KidsOf(loose), es)
    requires Feet(sh, loose) <= lib.live
    modifies lib`live, lib`failures
    modifies (Nodes(sh) + NodesAll(loose))`next, (Nodes(sh) + NodesAll(loose))`prev
    modifies (Nodes(sh) + NodesAll(loose))`child, (Nodes(sh) + NodesAll(loose))`name
    ensures newitem == null ==> IsRoot(item, sh) && lib.live == old(lib.live)
    ensures newitem != null ==>
      copy.Some? && CopyOf(sh, copy.value) && IsRoot(newitem, copy.value) && Foot(copy.value) <= lib.live
    ensures newitem != null ==>
      Valid(sh, loose, es, names) && var (r, l) := After(sh, loose, es, names); IsRoot(item, r) && Alone(l)
    ensures newitem != null ==> Foot(copy.value) !! FeetOf(After(sh, loose, es, names))
  {
    hide Nodes, NodesAll, Blocks, BlocksAll, KidOf, KidsOf, AllPossible, Valid, After, Separate, Holds, Alone, CopyOf;
    names := [];
    RootInFoot(sh);
    assert allocated(Foot(sh)) && allocated(FootAll(loose)) && Ready(item, sh, loose) && IsRoot(item, sh);
    newitem, copy := DuplicateNode(lib, item, true, sh);
    if newitem == null { return; }
    assert Ready(item, sh, loose);
    names := RunBeside(lib, item, es, newitem, sh, loose, copy.value);
  }
}
