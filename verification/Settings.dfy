/**
 dbSetJSON and dbGetJSON: the database as JSON, through the heap.
 */
module Settings {
  import opened Bytes
  import opened CText
  import opened Json
  import opened JsonParse
  import opened Heap
  import opened Tree
  import opened Links
  import opened TreeParser
  import opened Lifetime
  import opened Edit
  import opened Names
  import opened Storage
  import opened Config
  import opened Grammar
  import opened Completeness
  import opened JsonPrint

  // ---------- the text of a SET ----------

  /** The members that dbSetJSON goes through: those of an object. */
  function MembersOf(v: Value): seq<Member> {
    match v
    case Object(ms) => ms
    case _ => []
  }

  /**
   What C defines of a SET: its strings are decoded inside their blocks, and every number of a member has a
   valueint in the range of int.
   */
  predicate Settable(s: seq<byte>) {
    var p := ParseText(s, false);
    !p.OutOfBounds? && (p.Done? ==> InRange(MembersOf(p.value)))
  }

  /** The text is an array that is not empty: its children have no names. */
  predicate IsFilledArray(s: seq<byte>) {
    var p := ParseText(s, false);
    p.Done? && p.value.Array? && p.value.items != []
  }

  // ---------- strings of the name table ----------

  lemma NameNulFree(i: nat)
    requires i < NAMED
    ensures NulFree(Name(i))
  {
    hide NameString;
    NameIsPlain(i);
  }

  /**
   The loop over dbString, which dbLookup has as well: the index of the name, or that of the null pointer behind the
   table.
   */
  method Lookup(str: array<byte>, ghost s: seq<byte>) returns (i: nat)
    requires CString(str, s)
    ensures i <= NAMED && (i < NAMED <==> Known(s)) && (i < NAMED ==> s == Name(i))
  {
    hide CString, Name;
    i := 0;
    while i < NAMED
      invariant i <= NAMED && CString(str, s) && forall j :: 0 <= j < i ==> s != Name(j)
    {
      NameNulFree(i);
      CStringIsText(str, s);
      var same := StrEqual(str, 0, Name(i), s);
      if same {
        return;
      }
      i := i + 1;
    }
  }

  // ---------- SET ----------

  /** The children of what was parsed, as the members that are set; those of an array have no names. */
  lemma ParsedMembers(sh: Shape)
    requires AsParsed(sh)
    ensures Nameless(Abs(sh)) ==> |sh.kids| > 0 && sh.kids[0].name.None?
    ensures !Nameless(Abs(sh)) ==> |sh.kids| == |MembersOf(Abs(sh))|
    ensures !Nameless(Abs(sh)) ==> forall i :: 0 <= i < |sh.kids| ==> var m := MembersOf(Abs(sh))[i];
      sh.kids[i].name.Some? && sh.kids[i].name.value.text == m.name && sh.kids[i].valueint == ValueInt(m.value)
  {
    hide Abs;
    if sh.typ == TYPE_OBJECT {
      ObjectMembers(sh);
      forall i | 0 <= i < |sh.kids|
        ensures sh.kids[i].valueint == ValueInt(MembersOf(Abs(sh))[i].value)
      {
        assert AsParsed(sh.kids[i]);
      }
    } else if sh.typ == TYPE_ARRAY {
      ArrayItems(sh);
    } else {
      NoMembers(sh);
    }
  }

  predicate Nameless(v: Value) { v.Array? && v.items != [] }

  lemma ObjectMembers(sh: Shape)
    requires sh.typ == TYPE_OBJECT
    ensures Abs(sh) == Object(AbsMembers(sh.kids))
  {
  }

  lemma ArrayItems(sh: Shape)
    requires sh.typ == TYPE_ARRAY
    ensures Abs(sh) == Array(AbsAll(sh.kids))
  {
  }

  lemma NoMembers(sh: Shape)
    requires sh.typ < TYPE_ARRAY
    ensures !Abs(sh).Object? && !Abs(sh).Array?
  {
  }

  ghost predicate KnownName(name: Option<Str>) { name.Some? && Known(name.value.text) }

  /**
   The first loop of dbSetJSON: 1 when a child has a name that is not in the table. A child without a name, if
   all names before it are known, makes it hand a null pointer to strcmp: there the model stops.
   */
  method Validate(first: Node?, ghost kids: seq<Shape>) returns (ret: nat, fault: bool)
    requires first == First(kids) && HoldsAll(kids)
    ensures fault <==>
      exists k :: 0 <= k < |kids| && kids[k].name.None? && forall j :: 0 <= j < k ==> KnownName(kids[j].name)
    ensures !fault ==> ret == if forall k :: 0 <= k < |kids| ==> KnownName(kids[k].name) then 0 else 1
  {
    hide Holds, HoldsAll, Known, CString, NodesAll, BlocksAll;
    var dbItem := first;
    ghost var i := 0;
    ret, fault := 0, false;
    assert kids[0..] == kids;
    while dbItem != null
      invariant HoldsAll(kids) && i <= |kids| && dbItem == First(kids[i..])
      invariant forall k :: 0 <= k < i ==> KnownName(kids[k].name)
      decreases |kids| - i
    {
      ListStep(kids, i);
      FieldsOf(kids[i]);
      assert allocated(NodesAll(kids)) && allocated(BlocksAll(kids));
      if dbItem.name == null {
        fault := true;
        return;
      }
      var k := Lookup(dbItem.name, kids[i].name.value.text);
      if k == NAMED {
        return 1, false;
      }
      ListStep(kids, i);
      dbItem := dbItem.next;
      i := i + 1;
    }
  }

  lemma ValidatedMembers(kids: seq<Shape>, ms: seq<Member>)
    requires |kids| == |ms| && forall k :: 0 <= k < |ms| ==> kids[k].name.Some? && kids[k].name.value.text == ms[k].name
    ensures (forall k :: 0 <= k < |kids| ==> KnownName(kids[k].name)) <==> AllKnown(ms)
  {
    hide Known;
  }

  /** Finding a known name without regard to case finds the first member that has exactly that name. */
  lemma NamedIsFirst(kids: seq<Shape>, ms: seq<Member>, i: nat, str: Str)
    requires |kids| == |ms| && i < NAMED && str.text == Name(i) && AllKnown(ms)
    requires forall k :: 0 <= k < |kids| ==> kids[k].name.Some? && kids[k].name.value.text == ms[k].name
    ensures Named(kids, Some(str)) == FirstNamed(ms, Name(i))
  {
    hide Name, Known, EqualIgnoringCase;
    forall k | 0 <= k < |ms|
      ensures EqualIgnoringCase(ms[k].name, Name(i)) <==> ms[k].name == Name(i)
    {
      LookupIsExact(ms[k].name, i);
    }
    NamedIs(kids, Some(str), FirstNamed(ms, Name(i)));
  }

  /**
   The second loop of dbSetJSON: every item whose name is there gets the valueint of the first child with the name.
   */
  method SetItems(db: Database, cmd: Node, ghost sh: Shape, ghost ms: seq<Member>)
    requires db.Valid() && IsParent(cmd, sh) && |sh.kids| == |ms| && AllKnown(ms) && InRange(ms)
    requires forall k :: 0 <= k < |ms| ==> sh.kids[k].name.Some? && sh.kids[k].name.value.text == ms[k].name
    requires forall k :: 0 <= k < |ms| ==> sh.kids[k].valueint == ValueInt(ms[k].value)
    modifies db.ints
    ensures db.ints[..] == ItemsAfter(old(db.ints[..]), ms) && IsParent(cmd, sh)
  {
    hide IsParent, Nodes, Blocks, Name, AllKnown, InRange, ItemAfter, Named, CString;
    ghost var was := db.ints[..];
    var i := 0;
    while i < NAMED
      invariant i <= NAMED && IsParent(cmd, sh)
      invariant forall j :: 0 <= j < NUM_INTS ==> db.ints[j] == if j < i then ItemAfter(was, ms, j) else was[j]
    {
      ghost var now := db.ints[..];
      SetItem(db, cmd, i, sh, ms);
      SameItem(now, was, ms, i);
      assert forall j :: 0 <= j < NUM_INTS ==> db.ints[j] == db.ints[..][j];
      i := i + 1;
    }
    forall j | NAMED <= j < NUM_INTS
      ensures ItemAfter(was, ms, j) == was[j]
    {
      OtherItem(was, ms, j);
    }
    assert db.ints[..] == ItemsAfter(was, ms);
  }

  lemma SameItem(a: seq<int32>, b: seq<int32>, ms: seq<Member>, i: nat)
    requires i < |a| == |b| && a[i] == b[i] && InRange(ms)
    ensures ItemAfter(a, ms, i) == ItemAfter(b, ms, i)
  {
  }

  lemma OtherItem(ints: seq<int32>, ms: seq<Member>, j: nat)
    requires NAMED <= j < |ints| && InRange(ms)
    ensures ItemAfter(ints, ms, j) == ints[j]
  {
  }

  /** One turn of that loop. */
  method SetItem(db: Database, cmd: Node, i: nat, ghost sh: Shape, ghost ms: seq<Member>)
    requires db.Valid() && IsParent(cmd, sh) && |sh.kids| == |ms| && AllKnown(ms) && InRange(ms) && i < NAMED
    requires forall k :: 0 <= k < |ms| ==> sh.kids[k].name.Some? && sh.kids[k].name.value.text == ms[k].name
    requires forall k :: 0 <= k < |ms| ==> sh.kids[k].valueint == ValueInt(ms[k].value)
    modifies db.ints
    ensures db.ints[..] == old(db.ints[..])[i := ItemAfter(old(db.ints[..]), ms, i)] && IsParent(cmd, sh)
  {
    hide IsParent, Nodes, Blocks, Name, AllKnown, Named, CString, Holds, HoldsAll, NodesAll;
    NameNulFree(i);
    assert allocated(Nodes(sh)) && allocated(Blocks(sh));
    var str := Literal(Name(i));
    NamedIsFirst(sh.kids, ms, i, Str(str, Name(i)));
    var dbItem := GetObjectItem(cmd, str, sh, Some(Str(str, Name(i))));
    if dbItem != null {
      ParentKids(cmd, sh);
      ListStep(sh.kids, FirstNamed(ms, Name(i)));
      FieldsOf(sh.kids[FirstNamed(ms, Name(i))]);
      db.ints[i] := dbItem.valueint;
    }
  }

  /** The members that a SET of the text goes through, if it is JSON and no array with items. */
  function MembersOfText(s: seq<byte>): Option<seq<Member>> {
    match ParseText(s, false)
    case Done(_, v) => if Nameless(v) then None else Some(MembersOf(v))
    case _ => None
  }

  /**
   dbSetJSON: all or nothing. The items are those after the members have been set, all of them or, if one name
   is unknown or the text is not JSON, none; and nothing stays allocated. An array that is not empty, and
   nothing else, makes it hand a null pointer to strcmp: the model stops there, with no item changed and all that
   was parsed still allocated.
   */
  method SetJson(lib: Library, db: Database, jsonString: array?<byte>, ghost s: seq<byte>)
    returns (ret: nat, fault: bool, ghost lost: set<object>)
    requires db.Valid() && (jsonString != null ==> CString(jsonString, s) && Settable(s))
    modifies lib`ep, lib`live, lib`failures, db.ints
    ensures lib.live == old(lib.live) + lost && fresh(lost) && (fault <==> lost != {})
    ensures lib.failures >= old(lib.failures)
    ensures fault ==> jsonString != null && IsFilledArray(s)
    ensures jsonString != null && IsFilledArray(s) && lib.failures == old(lib.failures) ==> fault
    ensures ret in {0, 1} && (fault || ret == 1 ==> db.ints[..] == old(db.ints[..]))
    ensures !fault && ret == 0 ==> jsonString != null && MembersOfText(s).Some? && AllKnown(MembersOfText(s).value)
    ensures !fault && ret == 0 ==> db.ints[..] == ItemsAfter(old(db.ints[..]), MembersOfText(s).value)
    ensures ret == 1 && jsonString != null && MembersOfText(s).Some? && AllKnown(MembersOfText(s).value) ==>
      lib.failures > old(lib.failures)
  {
    hide ParseText, Nodes, Blocks, Separate, Holds, AllKnown, InRange, CString, AsParsed, Abs, HoldsAll, KnownName;
    fault, lost := false, {};
    var cmd, end;
    ghost var tree;
    cmd, end, tree := ParseWithOpts(lib, jsonString, s, false);
    if cmd == null {
      return 1, false, {};
    }
    ghost var sh := tree.value;
    ghost var ms := MembersOf(Abs(sh));
    ParsedMembers(sh);
    FieldsOf(sh);
    assert IsParent(cmd, sh);
    ret, fault := Validate(cmd.child, sh.kids);
    if fault {
      RootInFoot(sh);
      return 0, true, Foot(sh);
    }
    assert !Nameless(Abs(sh));
    ValidatedMembers(sh.kids, ms);
    assert IsParent(cmd, sh);
    if ret == 0 {
      SetItems(db, cmd, sh, ms);
    }
    assert IsParent(cmd, sh) && cmd.next == null;
    RootIsOwned(sh);
    Delete(lib, cmd, [sh]);
  }

  /** The shortest such array with a number in it: a SET of [1] faults. */
  lemma OneItemFaults()
    ensures var s := [LBRACKET, 0x31, RBRACKET];
      Settable(s) && IsFilledArray(s) && ParseText(s, false) == Done(3, Array([Number(1.0)]))
  {
    hide ParseValue;
    var v := Array([Number(1.0)]);
    var s := [LBRACKET, 0x31, RBRACKET];
    assert Print(2, NOTHING, v) == s by {
      hide ParseText;
      assert [Number(1.0)][1..] == [];
      assert DecimalText(1) == [0x31];
    }
    RoundTripAt(2, NOTHING, v, s, 0, 3);
    assert Skip(s, 0) == 0;
  }

  // ---------- GET ----------

  /** cJSON_CreateObject */
  method CreateObject(lib: Library) returns (item: Node?, ghost sh: Option<Shape>)
    modifies lib`live, lib`failures
    ensures item == null ==> lib.live == old(lib.live) && lib.failures > old(lib.failures)
    ensures item != null ==>
      sh.Some? && IsRoot(item, sh.value) && sh.value.typ == TYPE_OBJECT && sh.value.kids == [] && sh.value.name == None
    ensures item != null ==>
      fresh(Foot(sh.value)) && lib.live == old(lib.live) + Foot(sh.value) && lib.failures == old(lib.failures)
  {
    sh := None;
    item := lib.NewItem();
    if item != null {
      item.typ := TYPE_OBJECT;
      sh := Some(Leaf(item, None, None));
      LeafBuilt(sh.value);
      LeafHolds(item, None, None);
    }
  }

  /** cJSON_CreateNumber of an int. */
  method CreateNumber(lib: Library, num: int32) returns (item: Node?, ghost sh: Option<Shape>)
    modifies lib`live, lib`failures
    ensures item == null ==> sh == None && lib.live == old(lib.live) && lib.failures > old(lib.failures)
    ensures item != null ==> sh.Some? && IsRoot(item, sh.value) && IsNumber(sh.value, num) && sh.value.name == None
    ensures item != null ==>
      fresh(Foot(sh.value)) && lib.live == old(lib.live) + Foot(sh.value) && lib.failures == old(lib.failures)
  {
    sh := None;
    item := lib.NewItem();
    if item != null {
      item.typ := TYPE_NUMBER;
      item.valuedouble := num as real;
      item.valueint := num;
      sh := Some(Leaf(item, None, None));
      LeafBuilt(sh.value);
      LeafHolds(item, None, None);
    }
  }

  ghost predicate IsNumber(sh: Shape, num: int32) {
    sh.typ == TYPE_NUMBER && sh.number == num as real && sh.valueint == num && sh.kids == [] && sh.str == None
  }

  /** The children are the first n items of the database, as numbers under their names. */
  ghost predicate DatabaseItems(kids: seq<Shape>, ints: seq<int32>, n: nat)
    requires n <= NAMED <= |ints|
  {
    |kids| == n && forall k :: 0 <= k < n ==>
      IsNumber(kids[k], ints[k]) && kids[k].name.Some? && kids[k].name.value.text == Name(k)
  }

  /** A child that stands for an item of the database, with its name or, where there was no memory for it, without. */
  ghost predicate FromItems(kid: Shape, ints: seq<int32>)
    requires NAMED <= |ints|
  {
    exists i :: 0 <= i < NAMED && IsItemNode(kid, i, ints[i])
  }

  ghost predicate IsItemNode(kid: Shape, i: nat, num: int32)
    requires i < NAMED
  {
    IsNumber(kid, num) && (kid.name.Some? ==> kid.name.value.text == Name(i))
  }

  /** cJSON_AddNumberToObject */
  method AddNumberToObject(lib: Library, obj: Node, i: nat, num: int32, ghost psh: Shape) returns (ghost after: Shape)
    requires IsRoot(obj, psh) && i < NAMED && Foot(psh) <= lib.live
    modifies lib`live, lib`failures, obj`child, Roots(psh.kids)`next
    ensures IsRoot(obj, after) && fresh(Foot(after) - Foot(psh)) && lib.live == old(lib.live) + Foot(after)
    ensures Foot(psh) <= Foot(after)
    ensures after.typ == psh.typ && lib.failures >= old(lib.failures)
    ensures |psh.kids| <= |after.kids| <= |psh.kids| + 1 && after.kids[..|psh.kids|] == psh.kids
    ensures |after.kids| > |psh.kids| ==> IsItemNode(after.kids[|psh.kids|], i, num)
    ensures lib.failures == old(lib.failures) ==> |after.kids| == |psh.kids| + 1 && after.kids[..|psh.kids|] == psh.kids
    ensures lib.failures == old(lib.failures) ==> var kid := after.kids[|psh.kids|];
      IsNumber(kid, num) && kid.name.Some? && kid.name.value.text == Name(i)
  {
    hide Nodes, Blocks, Separate, Holds, Name, CString, Roots;
    RootInFoot(psh);
    NameNulFree(i);
    RootsApartFrom(psh);
    assert allocated(Nodes(psh)) && allocated(Blocks(psh));
    var str := Literal(Name(i));
    var item;
    ghost var sh, name;
    item, sh := CreateNumber(lib, num);
    assert IsParent(obj, psh);
    if item != null {
      RootInFoot(sh.value);
    }
    name := AddItemToObject(lib, obj, str, item, psh, sh, Name(i));
    after := if item == null then psh else WithKids(psh, psh.kids + [Renamed(sh.value, name)]);
  }

  const CONFIG: string := "Config"
  const OTHER_GETS: seq<string> := ["FaultLog", "FaultLogBegin", "FaultLogEnd", "WarnLog", "WarnLogBegin", "WarnLogEnd"]

  /** The loop of dbGetJSON: every named item is added to the object. */
  method AddItems(lib: Library, db: Database, dbObject: Node, ghost psh: Shape) returns (ghost after: Shape)
    requires db.Valid() && IsRoot(dbObject, psh) && psh.kids == [] && psh.typ == TYPE_OBJECT && Foot(psh) <= lib.live
    modifies lib`live, lib`failures, dbObject`child, Foot(psh)
    ensures IsRoot(dbObject, after) && fresh(Foot(after) - Foot(psh)) && lib.live == old(lib.live) + Foot(after)
    ensures Foot(psh) <= Foot(after)
    ensures after.typ == TYPE_OBJECT && lib.failures >= old(lib.failures)
    ensures lib.failures == old(lib.failures) ==> DatabaseItems(after.kids, db.ints[..], NAMED)
    ensures forall k :: 0 <= k < |after.kids| ==> FromItems(after.kids[k], db.ints[..])
  {
    hide Nodes, Blocks, Separate, Holds, Name, Roots, IsNumber;
    after := psh;
    var i := 0;
    ghost var ints := db.ints[..];
    while i < NAMED
      invariant i <= NAMED && db.ints[..] == ints
      invariant IsRoot(dbObject, after) && fresh(Foot(after) - Foot(psh)) && lib.live == old(lib.live) + Foot(after)
      invariant Foot(psh) <= Foot(after)
      invariant after.typ == TYPE_OBJECT && lib.failures >= old(lib.failures)
      invariant lib.failures == old(lib.failures) ==> DatabaseItems(after.kids, ints, i)
      invariant forall k :: 0 <= k < |after.kids| ==> FromItems(after.kids[k], ints)
    {
      ghost var before := after;
      RootsFresh(before);
      after := AddNumberToObject(lib, dbObject, i, db.ints[i], before);
      assert forall k :: 0 <= k < |before.kids| ==> after.kids[k] == after.kids[..|before.kids|][k];
      i := i + 1;
    }
  }

  lemma RootsFresh(psh: Shape)
    requires Separate(psh)
    ensures Roots(psh.kids) <= Nodes(psh) && psh.node in Nodes(psh)
  {
    RootsApartFrom(psh);
    RootInFoot(psh);
  }

  lemma ItemsMean(sh: Shape, ints: seq<int32>)
    requires sh.typ == TYPE_OBJECT && NAMED <= |ints| && DatabaseItems(sh.kids, ints, NAMED)
    ensures Abs(sh) == ConfigValue(ints)
  {
    hide Name, ConfigMembers, Abs;
    var kids, ms := sh.kids, ConfigMembers(ints, NAMED);
    ObjectMembers(sh);
    forall k | 0 <= k < NAMED
      ensures AbsMembers(kids)[k] == ms[k]
    {
      NumberMeans(kids[k], ints[k]);
    }
    assert AbsMembers(kids) == ms;
  }

  lemma NumberMeans(sh: Shape, num: int32)
    requires IsNumber(sh, num)
    ensures Abs(sh) == Number(num as real)
  {
  }

  lemma EmptyMeans(sh: Shape)
    requires sh.typ == TYPE_OBJECT && sh.kids == []
    ensures Abs(sh) == Object([])
  {
  }

  /** What dbGetJSON answers to a subcommand: the items, an empty object, or nothing if it is unknown. */
  function AnswerTo(subcmd: seq<byte>, ints: seq<int32>): Option<Value>
    requires NAMED <= |ints|
  {
    if subcmd == Ascii(CONFIG) then Some(ConfigValue(ints))
    else if exists i :: 0 <= i < |OTHER_GETS| && IsGet(subcmd, i) then Some(Object([]))
    else None
  }

  /** What it answers to a text; to one that is not JSON, an empty object. */
  function Answer(s: seq<byte>, ints: seq<int32>): Option<Value>
    requires NAMED <= |ints|
  {
    match ParseText(s, false)
    case Done(_, String(subcmd)) => AnswerTo(subcmd, ints)
    case _ => Some(Object([]))
  }

  predicate IsGet(subcmd: seq<byte>, i: nat)
    requires i < |OTHER_GETS|
  {
    OtherIsPlain(i);
    subcmd == Ascii(OTHER_GETS[i])
  }

  lemma OtherIsPlain(i: nat)
    requires i < |OTHER_GETS|
    ensures IsPlain(OTHER_GETS[i])
  {
  }

  lemma PlainNulFree(s: string)
    requires IsPlain(s)
    ensures NulFree(Ascii(s))
  {
  }

  /** !strcmp(subcmd, dbGetcmds[i]) for one of the subcommands behind the first. */
  method IsOtherGet(subcmd: array<byte>, ghost s: seq<byte>) returns (found: bool)
    requires CString(subcmd, s)
    ensures found <==> exists i :: 0 <= i < |OTHER_GETS| && IsGet(s, i)
  {
    hide CString;
    var i := 0;
    while i < |OTHER_GETS|
      invariant i <= |OTHER_GETS| && CString(subcmd, s) && forall j :: 0 <= j < i ==> !IsGet(s, j)
    {
      OtherIsPlain(i);
      PlainNulFree(OTHER_GETS[i]);
      CStringIsText(subcmd, s);
      var same := StrEqual(subcmd, 0, Ascii(OTHER_GETS[i]), s);
      if same {
        assert IsGet(s, i);
        return true;
      }
      i := i + 1;
    }
    return false;
  }

  /** The object that is sent: a structure of its own; and when there are items in it, those of the database. */
  ghost predicate IsAnswer(dbObject: Node?, tree: Option<Shape>, answer: Option<Value>, ints: seq<int32>)
    requires NAMED <= |ints|
  {
    if answer.None? then dbObject == null
    else dbObject != null && tree.Some? && Abs(tree.value) == answer.value &&
         (answer.value == ConfigValue(ints) ==>
           tree.value.typ == TYPE_OBJECT && DatabaseItems(tree.value.kids, ints, NAMED))
  }

  /** The end of dbGetJSON, with the empty object and the subcommand. */
  method Respond(lib: Library, db: Database, obj: Node?, subcmd: array<byte>, ghost s: seq<byte>,
                 ghost empty: Option<Shape>)
    returns (dbObject: Node?, ghost tree: Option<Shape>)
    requires db.Valid() && CString(subcmd, s)
    requires obj != null ==>
      empty.Some? && IsRoot(obj, empty.value) && empty.value.typ == TYPE_OBJECT && empty.value.kids == []
    requires obj != null ==> Foot(empty.value) <= lib.live
    modifies lib`live, lib`failures, lib`nullWrites, (if obj == null then {} else {obj})`child
    modifies if obj == null then {} else Foot(empty.value)
    ensures dbObject == null ==> lib.live == old(lib.live) - (if obj == null then {} else Foot(empty.value))
    ensures dbObject != null ==>
      obj != null && tree.Some? && IsRoot(dbObject, tree.value) && Foot(empty.value) <= Foot(tree.value)
    ensures dbObject != null ==>
      fresh(Foot(tree.value) - Foot(empty.value)) && lib.live == old(lib.live) + Foot(tree.value)
    ensures dbObject != null ==> tree.value.typ == TYPE_OBJECT
    ensures dbObject != null ==> forall k :: 0 <= k < |tree.value.kids| ==> FromItems(tree.value.kids[k], db.ints[..])
    ensures lib.failures >= old(lib.failures)
    ensures obj != null && lib.failures == old(lib.failures) ==>
      lib.nullWrites == old(lib.nullWrites) && IsAnswer(dbObject, tree, AnswerTo(s, db.ints[..]), db.ints[..])
  {
    hide Nodes, Blocks, Separate, Holds, CString, Abs, DatabaseItems, ConfigValue, Ascii, FromItems;
    dbObject, tree := obj, empty;
    if obj != null { EmptyMeans(empty.value); }
    ConfigIsNotEmpty(db.ints[..]);
    PlainNulFree(CONFIG);
    assert obj != null ==> allocated(Nodes(empty.value)) && allocated(Blocks(empty.value)) && IsRoot(obj, empty.value);
    CStringIsText(subcmd, s);
    var isConfig := StrEqual(subcmd, 0, Ascii(CONFIG), s);
    if isConfig {
      if obj == null {
        lib.nullWrites := lib.nullWrites + 1;
        return;
      }
      ghost var after := AddItems(lib, db, obj, empty.value);
      if lib.failures == old(lib.failures) { ItemsMean(after, db.ints[..]); }
      tree := Some(after);
      return;
    }
    assert obj != null ==> allocated(Nodes(empty.value)) && allocated(Blocks(empty.value)) && IsRoot(obj, empty.value);
    var other := IsOtherGet(subcmd, s);
    assert obj != null ==> IsRoot(obj, empty.value);
    if !other {
      if obj != null { RootIsOwned(empty.value); } else { NothingOwned(); }
      Delete(lib, obj, if obj == null then [] else [empty.value]);
      dbObject := null;
    }
  }

  lemma ConfigIsNotEmpty(ints: seq<int32>)
    requires NAMED <= |ints|
    ensures ConfigValue(ints) != Object([])
  {
  }

  /** The text is JSON, and no string: it has no subcommand. */
  predicate NoSubCommand(s: seq<byte>) {
    var p := ParseText(s, false);
    p.Done? && !p.value.String?
  }

  /**
   dbGetJSON. The structure that it parses the text into is never deleted: whenever the text is JSON,
   its blocks stay allocated without anything that points to them. If it is no string, it hands a null pointer
   to strcmp, and the model stops there: the object that was to be sent is then lost as well.
   */
  method GetJson(lib: Library, db: Database, jsonString: array?<byte>, ghost s: seq<byte>)
    returns (dbObject: Node?, fault: bool, ghost tree: Option<Shape>, ghost lost: set<object>)
    requires db.Valid() && (jsonString != null ==> CString(jsonString, s) && !ParseText(s, false).OutOfBounds?)
    modifies lib`ep, lib`live, lib`failures, lib`nullWrites
    ensures dbObject != null ==>
      tree.Some? && IsRoot(dbObject, tree.value) && fresh(Foot(tree.value)) && Foot(tree.value) !! lost
    ensures dbObject != null ==> tree.value.typ == TYPE_OBJECT
    ensures dbObject != null ==> forall k :: 0 <= k < |tree.value.kids| ==> FromItems(tree.value.kids[k], db.ints[..])
    ensures lib.live == old(lib.live) + lost + (if dbObject == null then {} else Foot(tree.value)) && fresh(lost)
    ensures lib.failures >= old(lib.failures)
    ensures lost != {} ==> jsonString != null && ParseText(s, false).Done?
    ensures jsonString != null && ParseText(s, false).Done? && lib.failures == old(lib.failures) ==> lost != {}
    ensures fault ==> dbObject == null && jsonString != null && NoSubCommand(s)
    ensures jsonString != null && NoSubCommand(s) && lib.failures == old(lib.failures) ==> fault
    ensures lib.failures == old(lib.failures) ==> lib.nullWrites == old(lib.nullWrites)
    ensures !fault && lib.failures == old(lib.failures) ==>
      IsAnswer(dbObject, tree, if jsonString == null then Some(Object([])) else Answer(s, db.ints[..]), db.ints[..])
  {
    hide ParseText, Nodes, Blocks, Separate, Holds, CString, AsParsed, Abs, HoldsAll, DatabaseItems, ConfigValue;
    hide AnswerTo, FromItems;
    lost, fault := {}, false;
    dbObject, tree := CreateObject(lib);
    var cmd, end;
    ghost var parsed;
    if dbObject != null { EmptyMeans(tree.value); }
    ConfigIsNotEmpty(db.ints[..]);
    assert dbObject != null ==>
      IsRoot(dbObject, tree.value) && allocated(Nodes(tree.value)) && allocated(Blocks(tree.value));
    cmd, end, parsed := ParseWithOpts(lib, jsonString, s, false);
    if cmd == null {
      return;
    }
    RootInFoot(parsed.value);
    SubCommand(parsed.value);
    if cmd.valuestring == null {
      lost := Foot(parsed.value) + if dbObject == null then {} else Foot(tree.value);
      return null, true, None, lost;
    }
    lost := Foot(parsed.value);
    if dbObject != null { RootInFoot(tree.value); }
    dbObject, tree := Respond(lib, db, dbObject, cmd.valuestring, parsed.value.str.value.text, tree);
  }

  /** A parsed value has a valuestring exactly if it is a string. */
  lemma SubCommand(sh: Shape)
    requires AsParsed(sh) && Holds(sh)
    ensures sh.node.valuestring == null <==> !Abs(sh).String?
    ensures Abs(sh).String? ==>
      sh.str.Some? && sh.node.valuestring == sh.str.value.block && CString(sh.str.value.block, sh.str.value.text)
    ensures Abs(sh).String? ==> Abs(sh) == String(sh.str.value.text)
  {
    hide HoldsAll, CString;
  }

  /**
   Of the texts of RFC 8259, with blanks around them, a SET faults on the arrays that are not empty, and a GET
   on all that are no strings.
   */
  lemma WhichTextsFault(before: seq<byte>, t: Text, after: seq<byte>)
    requires Blanks(before) && Valid(t) && Blanks(after)
    ensures var s := before + (TextBytes(t) + after);
      && (IsFilledArray(s) <==> t.ArrText? && t.items != [])
      && (NoSubCommand(s) <==> !t.StrText?)
  {
    hide ParseText, TextBytes, NumberMeaning, CharsMeaning, MembersMeaning;
    GrammarComplete(before, t, after);
  }

  predicate UnknownGet(subcmd: seq<byte>) {
    subcmd != Ascii(CONFIG) && forall i :: 0 <= i < |OTHER_GETS| ==> !IsGet(subcmd, i)
  }

  /**
   And of those that are strings, a GET answers to the seven subcommands: the items to Config, an empty object to the
   others. To any other string, and only there, it answers nothing.
   */
  lemma WhichTextsAreAnswered(before: seq<byte>, t: Text, after: seq<byte>, ints: seq<int32>)
    requires Blanks(before) && Valid(t) && Blanks(after) && NAMED <= |ints|
    ensures var answer := Answer(before + (TextBytes(t) + after), ints);
      && (answer == Some(ConfigValue(ints)) <==> t.StrText? && CharsMeaning(t.chars) == Ascii(CONFIG))
      && (answer == None <==> t.StrText? && UnknownGet(CharsMeaning(t.chars)))
  {
    hide ParseText, TextBytes, NumberMeaning, CharsMeaning, MembersMeaning, Ascii, ConfigValue, IsGet;
    GrammarComplete(before, t, after);
    ConfigIsNotEmpty(ints);
  }
}
