/**
 The shape of a cJSON structure: which nodes and strings it is made of, what is in them, and how
 they are linked. A shape is a value; Holds says that the heap currently agrees with it.
 */
module Tree {
  import opened Bytes
  import opened Json
  import opened Heap

  datatype Str = Str(block: array<byte>, text: seq<byte>)

  datatype Shape = Shape(node: Node, typ: nat, str: Option<Str>, valueint: int, number: real,
                         name: Option<Str>, kids: seq<Shape>)

  // ---------- footprints ----------

  ghost function Nodes(sh: Shape): set<Node>
    decreases sh
  {
    {sh.node} + NodesAll(sh.kids)
  }

  ghost function NodesAll(shs: seq<Shape>): set<Node>
    decreases shs
  {
    set sh, n | sh in shs && n in Nodes(sh) :: n
  }

  ghost function BlockOf(str: Option<Str>): set<array<byte>> {
    if str.None? then {} else {str.value.block}
  }

  ghost function Blocks(sh: Shape): set<array<byte>>
    decreases sh
  {
    BlockOf(sh.str) + BlockOf(sh.name) + BlocksAll(sh.kids)
  }

  ghost function BlocksAll(shs: seq<Shape>): set<array<byte>>
    decreases shs
  {
    set sh, b | sh in shs && b in Blocks(sh) :: b
  }

  lemma InNodesAll(shs: seq<Shape>, i: int)
    requires 0 <= i < |shs|
    ensures Nodes(shs[i]) <= NodesAll(shs) && Blocks(shs[i]) <= BlocksAll(shs) && shs[i].node in NodesAll(shs)
  {
    assert shs[i].node in Nodes(shs[i]);
  }

  lemma RootsInside(shs: seq<Shape>)
    ensures forall i :: 0 <= i < |shs| ==>
      Nodes(shs[i]) <= NodesAll(shs) && Blocks(shs[i]) <= BlocksAll(shs) && shs[i].node in NodesAll(shs)
  {
    forall i | 0 <= i < |shs|
      ensures Nodes(shs[i]) <= NodesAll(shs) && Blocks(shs[i]) <= BlocksAll(shs) && shs[i].node in NodesAll(shs)
    {
      InNodesAll(shs, i);
    }
  }

  ghost function Foot(sh: Shape): set<object> { Nodes(sh) + Blocks(sh) }

  ghost function FootAll(shs: seq<Shape>): set<object> { NodesAll(shs) + BlocksAll(shs) }

  // ---------- separation ----------

  /** The structure owns all its parts: none is a reference, and no two share a node or a string. */
  ghost predicate Separate(sh: Shape)
    decreases sh
  {
    && !IsReference(sh.typ)
    && sh.node !in NodesAll(sh.kids)
    && BlockOf(sh.str) !! BlockOf(sh.name)
    && BlockOf(sh.str) !! BlocksAll(sh.kids)
    && BlockOf(sh.name) !! BlocksAll(sh.kids)
    && SeparateAll(sh.kids)
  }

  ghost predicate SeparateAll(shs: seq<Shape>)
    decreases shs
  {
    && (forall i :: 0 <= i < |shs| ==> Separate(shs[i]))
    && (forall i, j :: 0 <= i < j < |shs| ==> Nodes(shs[i]) !! Nodes(shs[j]))
    && (forall i, j :: 0 <= i < j < |shs| ==> Blocks(shs[i]) !! Blocks(shs[j]))
  }

  // ---------- agreement with the heap ----------

  ghost predicate StrHolds(block: array?<byte>, str: Option<Str>)
    reads BlockOf(str)
  {
    match str
    case None => block == null
    case Some(s) => block == s.block && CString(s.block, s.text)
  }

  /** The fields of every node are as in the shape, and every list of children is linked both ways. */
  ghost predicate Holds(sh: Shape)
    reads sh.node`child, sh.node`typ, sh.node`valuestring, sh.node`valueint, sh.node`valuedouble, sh.node`name
    reads NodesAll(sh.kids), Blocks(sh)
    decreases sh
  {
    && sh.node.typ == sh.typ
    && sh.node.valueint == sh.valueint
    && sh.node.valuedouble == sh.number
    && StrHolds(sh.node.valuestring, sh.str)
    && StrHolds(sh.node.name, sh.name)
    && sh.node.child == First(sh.kids)
    && HoldsAll(sh.kids)
  }

  ghost predicate HoldsAll(shs: seq<Shape>)
    reads NodesAll(shs), BlocksAll(shs)
    decreases shs
  {
    RootsInside(shs);
    && (forall i :: 0 <= i < |shs| ==> Holds(shs[i]))
    && Linked(shs)
  }

  ghost function First(shs: seq<Shape>): Node? {
    if |shs| == 0 then null else shs[0].node
  }

  /** The roots form a list: the first has no prev, the last no next, and next and prev are inverse. */
  ghost predicate Linked(shs: seq<Shape>)
    reads NodesAll(shs)`next, NodesAll(shs)`prev
  {
    LinkedUpTo(shs, null)
  }

  /** The same for a list whose last next is n. */
  ghost predicate LinkedUpTo(shs: seq<Shape>, n: Node?)
    reads NodesAll(shs)`next, NodesAll(shs)`prev
  {
    RootsInside(shs);
    && (|shs| > 0 ==> shs[0].node.prev == null && shs[|shs| - 1].node.next == n)
    && forall i, j {:trigger shs[i], shs[j]} :: 0 <= i < j < |shs| && j == i + 1 ==>
         shs[i].node.next == shs[j].node && shs[j].node.prev == shs[i].node
  }

  // ---------- the abstract tree ----------

  ghost function TextOf(str: Option<Str>): seq<byte> {
    if str.None? then [] else str.value.text
  }

  /** The abstract tree of a structure, with the reference flag masked off as the printer does. */
  ghost function Abs(sh: Shape): Value
    decreases sh
  {
    match sh.typ % IS_REFERENCE
    case 1 => True
    case 2 => Null
    case 3 => Number(sh.number)
    case 4 => String(TextOf(sh.str))
    case 5 => Array(AbsAll(sh.kids))
    case 6 => Object(AbsMembers(sh.kids))
    case _ => False
  }

  ghost function AbsAll(shs: seq<Shape>): (vs: seq<Value>)
    ensures |vs| == |shs| && forall i :: 0 <= i < |shs| ==> vs[i] == Abs(shs[i])
    decreases shs
  {
    if |shs| == 0 then [] else [Abs(shs[0])] + AbsAll(shs[1..])
  }

  ghost function AbsMembers(shs: seq<Shape>): (ms: seq<Member>)
    ensures |ms| == |shs| && forall i :: 0 <= i < |shs| ==> ms[i] == Member(TextOf(shs[i].name), Abs(shs[i]))
    decreases shs
  {
    if |shs| == 0 then [] else [Member(TextOf(shs[0].name), Abs(shs[0]))] + AbsMembers(shs[1..])
  }

  // ---------- footprints of lists ----------

  lemma FromNodesAll(shs: seq<Shape>, n: Node) returns (i: int)
    requires n in NodesAll(shs)
    ensures 0 <= i < |shs| && n in Nodes(shs[i])
  {
    hide Nodes;
    var sh :| sh in shs && n in Nodes(sh);
    i :| 0 <= i < |shs| && shs[i] == sh;
  }

  lemma FromBlocksAll(shs: seq<Shape>, b: array<byte>) returns (i: int)
    requires b in BlocksAll(shs)
    ensures 0 <= i < |shs| && b in Blocks(shs[i])
  {
    hide Blocks;
    var sh :| sh in shs && b in Blocks(sh);
    i :| 0 <= i < |shs| && shs[i] == sh;
  }

  /** Lists with the same members have the same footprint. */
  lemma FootByIndex(shs: seq<Shape>, f: seq<Shape>, g: seq<Shape>)
    requires forall i :: 0 <= i < |shs| ==> shs[i] in f || shs[i] in g
    requires forall i :: 0 <= i < |f| ==> f[i] in shs
    requires forall i :: 0 <= i < |g| ==> g[i] in shs
    ensures NodesAll(shs) == NodesAll(f) + NodesAll(g)
    ensures BlocksAll(shs) == BlocksAll(f) + BlocksAll(g)
    ensures FootAll(shs) == FootAll(f) + FootAll(g)
  {
    hide Nodes, Blocks;
    assert forall sh :: sh in shs ==> sh in f || sh in g;
    assert forall sh :: sh in f ==> sh in shs;
    assert forall sh :: sh in g ==> sh in shs;
  }

  lemma FootAllOne(sh: Shape)
    ensures NodesAll([sh]) == Nodes(sh) && BlocksAll([sh]) == Blocks(sh) && FootAll([sh]) == Foot(sh)
  {
    hide Nodes, Blocks;
    assert [sh][0] == sh;
  }

  lemma FootAllAppend(f: seq<Shape>, g: seq<Shape>)
    ensures NodesAll(f + g) == NodesAll(f) + NodesAll(g)
    ensures BlocksAll(f + g) == BlocksAll(f) + BlocksAll(g)
    ensures FootAll(f + g) == FootAll(f) + FootAll(g)
  {
    var shs := f + g;
    forall i | 0 <= i < |f| ensures f[i] in shs {
      assert shs[i] == f[i];
    }
    forall i | 0 <= i < |g| ensures g[i] in shs {
      assert shs[|f| + i] == g[i];
    }
    FootByIndex(shs, f, g);
  }

  lemma SeparateAppend(f: seq<Shape>, g: seq<Shape>)
    requires SeparateAll(f) && SeparateAll(g)
    requires NodesAll(f) !! NodesAll(g) && BlocksAll(f) !! BlocksAll(g)
    ensures SeparateAll(f + g)
  {
    hide Nodes, Blocks, NodesAll, BlocksAll, Separate;
    var all := f + g;
    RootsInside(f);
    RootsInside(g);
    forall i, j | 0 <= i < j < |all|
      ensures Nodes(all[i]) !! Nodes(all[j]) && Blocks(all[i]) !! Blocks(all[j])
    {
      if i < |f| && j >= |f| {
        assert all[i] == f[i] && all[j] == g[j - |f|];
      }
    }
  }
}
