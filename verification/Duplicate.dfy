/**
 cJSON_Duplicate and references: copies own everything they are made of, references own nothing but
 themselves.
 */
module Duplicate {
  import opened Bytes
  import opened Json
  import opened Heap
  import opened Tree
  import opened Links
  import opened Lifetime

  /** typ & ~cJSON_IsReference */
  function ClearReference(typ: nat): (cleared: nat)
    ensures !IsReference(cleared) && cleared % IS_REFERENCE == typ % IS_REFERENCE
  {
    if IsReference(typ) then typ - IS_REFERENCE else typ
  }

  ghost predicate SameText(a: Option<Str>, b: Option<Str>) {
    if a.None? then b.None? else b.Some? && b.value.text == a.value.text
  }

  /** b has the fields and strings of a all the way down, with the reference flags cleared. */
  ghost predicate CopyOf(a: Shape, b: Shape)
    decreases a
  {
    && SameFields(a, b)
    && |b.kids| == |a.kids|
    && forall i :: 0 <= i < |a.kids| ==> CopyOf(a.kids[i], b.kids[i])
  }

  ghost predicate SameFields(a: Shape, b: Shape) {
    && b.typ == ClearReference(a.typ)
    && b.valueint == a.valueint && b.number == a.number
    && SameText(a.str, b.str) && SameText(a.name, b.name)
  }

  /** A copy stands for the same abstract tree. */
  lemma {:induction false} CopyMeansTheSame(a: Shape, b: Shape)
    requires CopyOf(a, b)
    ensures Abs(b) == Abs(a)
    decreases a
  {
    assert b.typ % IS_REFERENCE == a.typ % IS_REFERENCE;
    forall i | 0 <= i < |a.kids|
      ensures Abs(b.kids[i]) == Abs(a.kids[i])
    {
      CopyMeansTheSame(a.kids[i], b.kids[i]);
    }
    KidsMeanTheSame(a.kids, b.kids);
  }

  lemma KidsMeanTheSame(a: seq<Shape>, b: seq<Shape>)
    requires |a| == |b| && forall i :: 0 <= i < |a| ==> Abs(b[i]) == Abs(a[i]) && TextOf(b[i].name) == TextOf(a[i].name)
    ensures AbsAll(a) == AbsAll(b) && AbsMembers(a) == AbsMembers(b)
  {
    hide Abs;
  }

  /** A copy of a string that may be missing. */
  method CopyString(lib: Library, block: array?<byte>, ghost str: Option<Str>)
    returns (ok: bool, copy: array?<byte>, ghost result: Option<Str>)
    requires StrHolds(block, str)
    modifies lib`live, lib`failures
    ensures !ok ==> lib.live == old(lib.live) && lib.failures > old(lib.failures)
    ensures ok ==> StrHolds(copy, result) && SameText(str, result) && fresh(BlockOf(result))
    ensures ok ==> lib.live == old(lib.live) + BlockOf(result) && lib.failures == old(lib.failures)
  {
    if block == null {
      return true, null, None;
    }
    copy := lib.Strdup(block, str.value.text);
    if copy == null {
      return false, null, None;
    }
    return true, copy, Some(Str(copy, str.value.text));
  }

  /** The first half of cJSON_Duplicate: the node and its strings. */
  method CopyNode(lib: Library, item: Node, ghost sh: Shape) returns (newitem: Node?, ghost copy: Option<Shape>)
    requires item == sh.node && Holds(sh)
    modifies lib`live, lib`failures
    ensures newitem == null ==> lib.live == old(lib.live) && lib.failures > old(lib.failures)
    ensures newitem != null ==> copy.Some? && IsRoot(newitem, copy.value) && fresh(Foot(copy.value))
    ensures newitem != null ==> lib.live == old(lib.live) + Foot(copy.value) && lib.failures == old(lib.failures)
    ensures newitem != null ==> copy.value.kids == [] && SameFields(sh, copy.value)
  {
    hide HoldsAll, SeparateAll, Separate, Nodes, NodesAll, Blocks, BlocksAll, CString, IsReference;
    hide SameText, Holds;
    FieldsOf(sh);
    copy := None;
    newitem := lib.NewItem();
    if newitem == null { return; }
    EmptyHolds();
    newitem.typ := ClearReference(item.typ);
    newitem.valueint := item.valueint;
    newitem.valuedouble := item.valuedouble;
    var ok;
    ghost var str, name;
    ok, str, name := CopyStrings(lib, item, newitem, sh);
    if !ok {
      return null, None;
    }
    copy := Some(Leaf(newitem, str, name));
    LeafHolds(newitem, str, name);
    ParentBuilt(copy.value);
  }

  /** The strings of the item are copied to the new one; if that fails, the new item is given up. */
  method CopyStrings(lib: Library, item: Node, newitem: Node, ghost sh: Shape)
    returns (ok: bool, ghost str: Option<Str>, ghost name: Option<Str>)
    requires item == sh.node && item != newitem && StrHolds(item.valuestring, sh.str) && StrHolds(item.name, sh.name)
    requires newitem.valuestring == null && newitem.name == null && newitem.child == null && newitem.next == null
    requires !IsReference(newitem.typ) && newitem in lib.live
    modifies lib`live, lib`failures, newitem`valuestring, newitem`name
    ensures !ok ==> lib.live == old(lib.live) - {newitem} && lib.failures > old(lib.failures)
    ensures ok ==> StrHolds(newitem.valuestring, str) && SameText(sh.str, str) && fresh(BlockOf(str))
    ensures ok ==>
      StrHolds(newitem.name, name) && SameText(sh.name, name) && fresh(BlockOf(name)) && BlockOf(str) !! BlockOf(name)
    ensures ok ==> lib.live == old(lib.live) + BlockOf(str) + BlockOf(name) && lib.failures == old(lib.failures)
  {
    hide HoldsAll, SeparateAll, Separate, Nodes, NodesAll, Blocks, BlocksAll, CString, IsReference, SameText, Holds;
    var block;
    str, name := None, None;
    ok, block, str := CopyString(lib, item.valuestring, sh.str);
    if !ok {
      LeafHolds(newitem, None, None);
      DropLeaf(lib, newitem, Leaf(newitem, None, None));
      return;
    }
    newitem.valuestring := block;
    ok, block, name := CopyString(lib, item.name, sh.name);
    if !ok {
      LeafHolds(newitem, str, None);
      DropLeaf(lib, newitem, Leaf(newitem, str, None));
      return;
    }
    newitem.name := block;
  }

  /** Gives up a node without children. */
  method DropLeaf(lib: Library, item: Node, ghost sh: Shape)
    requires item == sh.node && Holds(sh) && item.next == null
    requires sh.kids == [] && !IsReference(sh.typ) && BlockOf(sh.str) !! BlockOf(sh.name)
    requires {item} + BlockOf(sh.str) + BlockOf(sh.name) <= lib.live
    modifies lib`live
    ensures lib.live == old(lib.live) - ({item} + BlockOf(sh.str) + BlockOf(sh.name))
  {
    EmptyHolds();
    ParentBuilt(sh);
    RootIsOwned(sh);
    hide *;
    Delete(lib, item, [sh]);
  }

  /** The second half: the copies of the children become the children of the new node, in order. */
  method CopyKids(lib: Library, newitem: Node, first: Node?, ghost shs: seq<Shape>)
    returns (ok: bool, ghost kids: seq<Shape>)
    requires first == First(shs) && HoldsAll(shs) && newitem !in NodesAll(shs) && newitem.child == null
    modifies lib`live, lib`failures, newitem`child
    ensures newitem.child == First(kids) && SeparateAll(kids) && HoldsAll(kids)
    ensures fresh(NodesAll(kids)) && fresh(BlocksAll(kids)) && lib.live == old(lib.live) + FootAll(kids)
    ensures ok ==>
      lib.failures == old(lib.failures) && |kids| == |shs| && forall i :: 0 <= i < |shs| ==> CopyOf(shs[i], kids[i])
    ensures !ok ==> lib.failures > old(lib.failures)
    decreases shs, 0
  {
    hide Nodes, NodesAll, Blocks, BlocksAll, Separate, SeparateAll, Holds, HoldsAll, CopyOf;
    EmptyHolds();
    assert allocated(NodesAll(shs)) && allocated(BlocksAll(shs));
    kids := [];
    var cptr, nptr: Node? := first, null;
    while cptr != null
      invariant |kids| <= |shs| && cptr == First(shs[|kids|..])
      invariant HoldsAll(shs)
      invariant nptr == (if |kids| == 0 then null else kids[|kids| - 1].node) && (nptr == null || fresh(nptr))
      invariant newitem.child == First(kids) && SeparateAll(kids) && HoldsAll(kids)
      invariant fresh(NodesAll(kids)) && fresh(BlocksAll(kids)) && lib.live == old(lib.live) + FootAll(kids)
      invariant lib.failures == old(lib.failures) && forall i :: 0 <= i < |kids| ==> CopyOf(shs[i], kids[i])
      decreases |shs| - |kids|
    {
      ghost var kid := shs[|kids|];
      ListStep(shs, |kids|);
      assert allocated(NodesAll(kids)) && allocated(BlocksAll(kids));
      var newchild;
      ghost var copy;
      newchild, copy := DuplicateNode(lib, cptr, true, kid);
      if newchild == null {
        return false, kids;
      }
      RootInFoot(copy.value);
      LinkLast(newitem, nptr, newchild, kids, copy.value);
      nptr := newchild;
      cptr := cptr.next;
      kids := kids + [copy.value];
    }
    return true, kids;
  }

  lemma CopyBuilt(a: Shape, b: Shape)
    requires SameFields(a, b) && |b.kids| == |a.kids| && forall i :: 0 <= i < |a.kids| ==> CopyOf(a.kids[i], b.kids[i])
    ensures CopyOf(a, b)
  {
  }

  /**
   cJSON_Duplicate of a node: a copy that owns all its parts, every one of them fresh, with next and
   prev null at its root; or, when an allocation failed, nothing, and the ledger as it was.
   */
  method DuplicateNode(lib: Library, item: Node, recurse: bool, ghost sh: Shape)
    returns (newitem: Node?, ghost copy: Option<Shape>)
    requires item == sh.node && Holds(sh)
    modifies lib`live, lib`failures
    ensures newitem == null ==> lib.live == old(lib.live) && lib.failures > old(lib.failures)
    ensures newitem != null ==> copy.Some? && IsRoot(newitem, copy.value) && fresh(Foot(copy.value))
    ensures newitem != null ==> lib.live == old(lib.live) + Foot(copy.value) && lib.failures == old(lib.failures)
    ensures newitem != null ==> CopyOf(if recurse then sh else sh.(kids := []), copy.value)
    decreases sh, 1
  {
    hide Nodes, NodesAll, Blocks, BlocksAll, Separate, SeparateAll, HoldsAll, IsReference, CString, StrHolds;
    hide DeletableAll, OwnedAll, OwnedOnceAll, CopyOf;
    FieldsOf(sh);
    assert allocated(NodesAll(sh.kids)) && allocated(BlocksAll(sh.kids));
    newitem, copy := CopyNode(lib, item, sh);
    if newitem == null {
      return;
    }
    CopyBuilt(sh.(kids := []), copy.value);
    if !recurse {
      return;
    }
    PartsOf(copy.value);
    EmptyHolds();
    FieldsOf(copy.value);
    var ok;
    ghost var kids;
    ok, kids := CopyKids(lib, newitem, item.child, sh.kids);
    ghost var built := copy.value.(kids := kids);
    copy := Some(built);
    ParentBuilt(built);
    if ok {
      CopyBuilt(sh, built);
    } else {
      RootIsOwned(built);
      Delete(lib, newitem, [built]);
      return null, None;
    }
  }

  /** cJSON_Duplicate */
  method Duplicate(lib: Library, item: Node?, recurse: bool, ghost sh: Option<Shape>)
    returns (newitem: Node?, ghost copy: Option<Shape>)
    requires if item == null then sh.None? else sh.Some? && item == sh.value.node && Holds(sh.value)
    modifies lib`live, lib`failures
    ensures newitem == null ==> lib.live == old(lib.live) && (item == null || lib.failures > old(lib.failures))
    ensures newitem != null ==> item != null && copy.Some? && IsRoot(newitem, copy.value) && fresh(Foot(copy.value))
    ensures newitem != null ==> lib.live == old(lib.live) + Foot(copy.value) && lib.failures == old(lib.failures)
    ensures newitem != null && recurse ==> CopyOf(sh.value, copy.value) && Abs(copy.value) == Abs(sh.value)
    ensures newitem != null && !recurse ==> CopyOf(sh.value.(kids := []), copy.value)
  {
    hide IsRoot, Foot, CopyOf, Abs, Holds;
    if item == null {
      return null, None;
    }
    newitem, copy := DuplicateNode(lib, item, recurse, sh.value);
    if newitem != null && recurse {
      CopyMeansTheSame(sh.value, copy.value);
    }
  }

  /** Deleting the one of an original and its copy leaves the other as it was, with all its parts allocated. */
  method DuplicateAndDelete(lib: Library, item: Node, deleteCopy: bool, ghost sh: Shape)
    returns (newitem: Node?, ghost copy: Option<Shape>)
    requires IsRoot(item, sh) && Foot(sh) <= lib.live
    modifies lib`live, lib`failures
    ensures newitem != null ==> copy.Some? && CopyOf(sh, copy.value) && Foot(sh) !! Foot(copy.value)
    ensures newitem == null || deleteCopy ==> IsRoot(item, sh) && lib.live == old(lib.live)
    ensures newitem != null && !deleteCopy ==>
      IsRoot(newitem, copy.value) && lib.live == old(lib.live) - Foot(sh) + Foot(copy.value)
  {
    hide Separate, Holds, Nodes, Blocks, CopyOf;
    assert allocated(Foot(sh)) && allocated(NodesAll(sh.kids)) && allocated(Blocks(sh)) && IsRoot(item, sh);
    newitem, copy := DuplicateNode(lib, item, true, sh);
    if newitem == null { return; }
    if deleteCopy {
      RootIsOwned(copy.value);
      Delete(lib, newitem, [copy.value]);
    } else {
      RootIsOwned(sh);
      Delete(lib, item, [sh]);
    }
  }

  // ---------- references ----------

  function SetReference(typ: nat): (flagged: nat)
    ensures IsReference(flagged) && flagged % IS_REFERENCE == typ % IS_REFERENCE
  {
    if IsReference(typ) then typ else typ + IS_REFERENCE
  }

  /**
   create_reference: a nameless node that shows the string and the children of the item, stands for the
   same abstract tree, and owns nothing but itself, so that deleting it leaves the item as it was.
   */
  method CreateReference(lib: Library, item: Node, ghost sh: Shape) returns (ref: Node?, ghost shown: Option<Shape>)
    requires item == sh.node && Holds(sh)
    modifies lib`live, lib`failures
    ensures ref == null ==> lib.live == old(lib.live) && lib.failures > old(lib.failures)
    ensures ref != null ==> fresh(ref) && ref.next == null && ref.prev == null && lib.live == old(lib.live) + {ref}
    ensures ref != null ==> shown.Some? && shown.value.node == ref && Holds(shown.value) && Abs(shown.value) == Abs(sh)
    ensures ref != null ==> shown.value.valueint == sh.valueint && shown.value.number == sh.number
    ensures ref != null ==> shown.value.name == None && shown.value.kids == sh.kids && shown.value.str == sh.str
    ensures ref != null ==>
      DeletableAll([shown.value]) && OwnedOnceAll([shown.value]) && OwnedAll([shown.value]) == {ref}
  {
    hide HoldsAll, NodesAll, BlocksAll, CString, Holds, Nodes, Blocks, IsReference, Abs, DeletableAll, OwnedAll;
    hide OwnedOnceAll;
    FieldsOf(sh);
    assert allocated(NodesAll(sh.kids)) && allocated(BlocksAll(sh.kids)) && allocated(BlockOf(sh.str));
    ref := lib.NewItem();
    shown := None;
    if ref == null { return; }
    ref.typ, ref.valueint, ref.valuedouble := SetReference(item.typ), item.valueint, item.valuedouble;
    ref.valuestring, ref.child := item.valuestring, item.child;
    ref.name, ref.next, ref.prev := null, null, null;
    shown := Some(Shape(ref, SetReference(sh.typ), sh.str, sh.valueint, sh.number, None, sh.kids));
    ParentHolds(shown.value);
    SameMeaning(sh, shown.value);
    ReferenceOwns(shown.value);
  }

  lemma SameMeaning(sh: Shape, shown: Shape)
    requires shown == sh.(node := shown.node, typ := SetReference(sh.typ), name := None)
    ensures Abs(shown) == Abs(sh)
  {
  }

  /** What a deletion frees of a reference: the node and its name, and nothing that it shows. */
  lemma ReferenceOwns(sh: Shape)
    requires Holds(sh) && IsReference(sh.typ) && sh.node.next == null
    ensures DeletableAll([sh]) && OwnedOnceAll([sh]) && OwnedAll([sh]) == {sh.node} + BlockOf(sh.name)
  {
    hide HoldsAll, NodesAll, BlocksAll, CString, IsReference;
    assert [sh][1..] == [];
  }
}
