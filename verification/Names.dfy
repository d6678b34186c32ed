/**
 The operations of cJSON.c that find a child by its name, which is compared without regard to case.
 */
module Names {
  import opened Bytes
  import opened Json
  import opened Heap
  import opened Tree
  import opened Links
  import opened Lifetime
  import opened Edit

  /** tolower of a char in the C locale. */
  function Lower(b: byte): byte { if 0x41 <= b <= 0x5A then b + 0x20 else b }

  predicate EqualIgnoringCase(a: seq<byte>, b: seq<byte>) {
    |a| == |b| && forall k :: 0 <= k < |a| ==> Lower(a[k]) == Lower(b[k])
  }

  /** Two names, either of which may be missing, count as the same. */
  ghost predicate SameName(a: Option<Str>, b: Option<Str>) {
    if a.None? || b.None? then a.None? && b.None? else EqualIgnoringCase(a.value.text, b.value.text)
  }

  /** cJSON_strcasecmp */
  method StrCaseCmp(s1: array?<byte>, s2: array?<byte>, ghost a: Option<Str>, ghost b: Option<Str>) returns (r: int)
    requires StrHolds(s1, a) && StrHolds(s2, b)
    ensures r == 0 <==> SameName(a, b)
  {
    if s1 == null { return if s1 == s2 then 0 else 1; }
    if s2 == null { return 1; }
    ghost var x, y := a.value.text, b.value.text;
    var i := 0;
    CharAt(s1, x, 0);
    CharAt(s2, y, 0);
    while Lower(s1[i]) == Lower(s2[i])
      invariant i <= |x| && i <= |y| && s1[i] == At(x, i) && s2[i] == At(y, i)
      invariant forall k :: 0 <= k < i ==> Lower(x[k]) == Lower(y[k])
      decreases |x| - i
    {
      CharAt(s1, x, i);
      CharAt(s2, y, i);
      if s1[i] == 0 { return 0; }
      i := i + 1;
      CharAt(s1, x, i);
      CharAt(s2, y, i);
    }
    return Lower(s1[i]) - Lower(s2[i]);
  }

  /** The index of the first child with the name, or the number of children. */
  ghost function Named(kids: seq<Shape>, name: Option<Str>): (i: nat)
    ensures i <= |kids| && (i < |kids| ==> SameName(kids[i].name, name))
    ensures forall k :: 0 <= k < i ==> !SameName(kids[k].name, name)
  {
    if |kids| == 0 || SameName(kids[0].name, name) then 0 else 1 + Named(kids[1..], name)
  }

  /** The first is the only index that is first. */
  lemma {:induction false} NamedIs(kids: seq<Shape>, name: Option<Str>, i: nat)
    requires i <= |kids| && (i < |kids| ==> SameName(kids[i].name, name))
    requires forall k :: 0 <= k < i ==> !SameName(kids[k].name, name)
    ensures Named(kids, name) == i
  {
    var j := Named(kids, name);
  }

  /** The loop over the children that the operations on objects share. */
  method Lookup(parent: Node, str: array?<byte>, ghost psh: Shape, ghost name: Option<Str>) returns (c: Node?, i: nat)
    requires IsParent(parent, psh) && StrHolds(str, name)
    ensures i == Named(psh.kids, name) && c == if i < |psh.kids| then psh.kids[i].node else null
    ensures IsParent(parent, psh)
  {
    hide IsParent, Separate, Holds, HoldsAll, SeparateAll, Nodes, NodesAll, Blocks, BlocksAll, CString, SameName;
    ParentKids(parent, psh);
    ghost var kids := psh.kids;
    c, i := parent.child, 0;
    assert kids[0..] == kids;
    while c != null
      invariant HoldsAll(kids) && i <= |kids| && c == First(kids[i..]) && IsParent(parent, psh) && StrHolds(str, name)
      invariant forall k :: 0 <= k < i ==> !SameName(kids[k].name, name)
      decreases |kids| - i
    {
      ListStep(kids, i);
      FieldsOf(kids[i]);
      assert allocated(NodesAll(kids)) && allocated(BlocksAll(kids)) && allocated(Foot(psh));
      var r := StrCaseCmp(c.name, str, kids[i].name, name);
      if r == 0 {
        NamedIs(kids, name, i);
        return;
      }
      i := i + 1;
      c := c.next;
    }
    NamedIs(kids, name, i);
  }

  /** cJSON_GetObjectItem */
  method GetObjectItem(parent: Node, str: array?<byte>, ghost psh: Shape, ghost name: Option<Str>) returns (c: Node?)
    requires IsParent(parent, psh) && StrHolds(str, name)
    ensures var k := Named(psh.kids, name); c == if k < |psh.kids| then psh.kids[k].node else null
    ensures IsParent(parent, psh)
  {
    hide IsParent, StrHolds;
    var i;
    c, i := Lookup(parent, str, psh, name);
  }

  /** cJSON_DetachItemFromObject */
  method DetachItemFromObject(parent: Node, str: array?<byte>, ghost psh: Shape, ghost name: Option<Str>)
    returns (c: Node?)
    requires IsParent(parent, psh) && StrHolds(str, name)
    modifies parent`child, Roots(psh.kids)`next, Roots(psh.kids)`prev
    ensures c == null <==> Named(psh.kids, name) == |psh.kids|
    ensures c == null ==> IsParent(parent, psh)
    ensures c != null ==>
      var sh, rest := psh.kids[Named(psh.kids, name)], WithKids(psh, Without(psh.kids, Named(psh.kids, name)));
      IsRoot(c, sh) && IsParent(parent, rest) && Foot(sh) !! Foot(rest) && Foot(psh) == Foot(sh) + Foot(rest)
  {
    hide IsParent, IsRoot, StrHolds, Foot, Without, Roots;
    var i;
    c, i := Lookup(parent, str, psh, name);
    if c != null {
      c := DetachItemFromArray(parent, i, psh);
    }
  }

  /** cJSON_DeleteItemFromObject */
  method DeleteItemFromObject(lib: Library, parent: Node, str: array?<byte>, ghost psh: Shape, ghost name: Option<Str>)
    requires IsParent(parent, psh) && StrHolds(str, name) && Foot(psh) <= lib.live
    modifies lib`live, parent`child, Roots(psh.kids)`next, Roots(psh.kids)`prev
    ensures var k := Named(psh.kids, name);
      if k == |psh.kids| then IsParent(parent, psh) && lib.live == old(lib.live)
      else IsParent(parent, WithKids(psh, Without(psh.kids, k))) && lib.live == old(lib.live) - Foot(psh.kids[k])
  {
    hide StrHolds, Without, Roots, Nodes, Blocks, Separate, Holds, DeletableAll, OwnedOnceAll, OwnedAll;
    ghost var k := Named(psh.kids, name);
    var c := DetachItemFromObject(parent, str, psh, name);
    if c != null {
      RootIsOwned(psh.kids[k]);
      Delete(lib, c, [psh.kids[k]]);
    } else {
      NothingOwned();
      Delete(lib, c, []);
    }
  }

  /** The same shape under another name. */
  ghost function Renamed(sh: Shape, name: Option<Str>): Shape { sh.(name := name) }

  lemma RenamedHolds(item: Node, sh: Shape, name: Option<Str>)
    requires Separate(sh) && BlockOf(name) !! BlockOf(sh.str) + BlocksAll(sh.kids)
    ensures Separate(Renamed(sh, name)) && Nodes(Renamed(sh, name)) == Nodes(sh)
    ensures Blocks(Renamed(sh, name)) == Blocks(sh) - BlockOf(sh.name) + BlockOf(name)
    ensures Foot(Renamed(sh, name)) == Foot(sh) - BlockOf(sh.name) + BlockOf(name)
  {
  }

  /** item->string = cJSON_strdup(string): a null pointer when there is no memory. */
  method SetName(lib: Library, item: Node, str: array<byte>, ghost sh: Shape, ghost s: seq<byte>)
    returns (ghost name: Option<Str>)
    requires IsRoot(item, sh) && CString(str, s)
    modifies lib`live, lib`failures, item`name
    ensures IsRoot(item, Renamed(sh, name)) && fresh(BlockOf(name))
    ensures lib.live == old(lib.live) + BlockOf(name)
    ensures name.None? ==> lib.failures > old(lib.failures)
    ensures name.Some? ==> name.value.text == s && lib.failures == old(lib.failures)
    ensures Foot(Renamed(sh, name)) == Foot(sh) - BlockOf(sh.name) + BlockOf(name)
  {
    hide HoldsAll, SeparateAll, Separate, Holds, Nodes, NodesAll, Blocks, BlocksAll;
    FieldsOf(sh);
    PartsOf(sh);
    assert allocated(NodesAll(sh.kids)) && allocated(BlocksAll(sh.kids)) && allocated(BlockOf(sh.str));
    item.name := lib.Strdup(str, s);
    name := if item.name == null then None else Some(Str(item.name, s));
    RenamedHolds(item, sh, name);
    ParentHolds(Renamed(sh, name));
  }

  /**
   cJSON_AddItemToObject: the old name is freed, the item gets a copy of the given one, or none when
   there is no memory for it, and becomes the last member.
   */
  method AddItemToObject(lib: Library, parent: Node, str: array<byte>, item: Node?, ghost psh: Shape,
                         ghost sh: Option<Shape>, ghost s: seq<byte>)
    returns (ghost name: Option<Str>)
    requires IsParent(parent, psh) && CString(str, s)
    requires if item == null then sh.None? else sh.Some? && IsRoot(item, sh.value) && Foot(psh) !! Foot(sh.value)
    requires item != null ==> BlockOf(sh.value.name) <= lib.live && str !in BlockOf(sh.value.name)
    modifies lib`live, lib`failures, parent`child, Roots(psh.kids)`next, (if item == null then {} else {item})`prev,
      (if item == null then {} else {item})`name
    ensures item == null ==> IsParent(parent, psh) && lib.live == old(lib.live) && lib.failures == old(lib.failures)
    ensures item != null ==> IsParent(parent, WithKids(psh, psh.kids + [Renamed(sh.value, name)]))
    ensures item != null ==> lib.live == old(lib.live) - BlockOf(sh.value.name) + BlockOf(name) && fresh(BlockOf(name))
    ensures item != null ==>
      if name.None? then lib.failures > old(lib.failures) else name.value.text == s && lib.failures == old(lib.failures)
    ensures item != null ==>
      Foot(WithKids(psh, psh.kids + [Renamed(sh.value, name)])) ==
        Foot(psh) + Foot(sh.value) - BlockOf(sh.value.name) + BlockOf(name)
  {
    hide Roots, Separate, Holds, Nodes, Blocks;
    name := None;
    if item == null { return; }
    FieldsOf(sh.value);
    NameInFoot(sh.value);
    RootInFoot(psh);
    assert allocated(Nodes(psh)) && allocated(Blocks(psh)) && IsParent(parent, psh);
    assert allocated(Nodes(sh.value)) && allocated(Blocks(sh.value));
    if item.name != null { lib.Free(item.name); }
    name := SetName(lib, item, str, sh.value, s);
    AddItemToArray(parent, item, psh, Some(Renamed(sh.value, name)));
  }

  /**
   cJSON_ReplaceItemInObject: the new item takes the place, and a copy of the name, of the first member
   with that name. The name it had before is not freed: it stays allocated, and in no structure.
   */
  method ReplaceItemInObject(lib: Library, parent: Node, str: array<byte>, newitem: Node, ghost psh: Shape,
                             ghost sh: Shape, ghost s: seq<byte>)
    returns (ghost name: Option<Str>)
    requires IsParent(parent, psh) && IsRoot(newitem, sh) && CString(str, s) && Foot(psh) !! Foot(sh)
    requires Foot(psh) <= lib.live
    modifies lib`live, lib`failures, parent`child, newitem`next, newitem`prev, newitem`name, Roots(psh.kids)`next
    modifies Roots(psh.kids)`prev
    ensures var k := Named(psh.kids, Some(Str(str, s)));
      if k == |psh.kids| then IsParent(parent, psh) && IsRoot(newitem, sh) && name == None &&
        lib.live == old(lib.live) && lib.failures == old(lib.failures)
      else IsParent(parent, WithKids(psh, psh.kids[k := Renamed(sh, name)])) && fresh(BlockOf(name)) &&
           lib.live == old(lib.live) - Foot(psh.kids[k]) + BlockOf(name)
    ensures Named(psh.kids, Some(Str(str, s))) < |psh.kids| ==>
      if name.None? then lib.failures > old(lib.failures) else name.value.text == s && lib.failures == old(lib.failures)
    ensures var k := Named(psh.kids, Some(Str(str, s)));
      k < |psh.kids| ==>
        Foot(WithKids(psh, psh.kids[k := Renamed(sh, name)])) ==
          Foot(psh) - Foot(psh.kids[k]) + Foot(sh) - BlockOf(sh.name) + BlockOf(name)
  {
    hide Roots, Separate, Holds, Nodes, Blocks, CString;
    name := None;
    ghost var k := Named(psh.kids, Some(Str(str, s)));
    RootInFoot(psh);
    RootInFoot(sh);
    NameInFoot(sh);
    assert allocated(Nodes(psh)) && allocated(Blocks(psh));
    assert allocated(Nodes(sh)) && allocated(Blocks(sh)) && IsRoot(newitem, sh);
    var c, i := Lookup(parent, str, psh, Some(Str(str, s)));
    if c != null {
      assert allocated(Nodes(psh.kids[k])) && allocated(Blocks(psh.kids[k]));
      name := SetName(lib, newitem, str, sh, s);
      ReplaceItemInArray(lib, parent, i, newitem, psh, Renamed(sh, name));
    }
  }
}
