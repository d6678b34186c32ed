/**
 The recursive-descent parser of cJSON.c over the heap. Every method is proved against the parsing
 functions on the text, builds a separate and well-linked structure out of fresh blocks, and accounts
 for every block in the ledger, also when it gives up halfway.
 */
module TreeParser {
  import opened Bytes
  import opened Json
  import opened JsonParse
  import opened Heap
  import opened Tree
  import opened Links
  import opened StringParser
  import opened NumberParser

  // ---------- lists of items on the text ----------

  /** What follows an item that ends at v, where blanks have been skipped. */
  function ItemsRest(s: seq<byte>, v: nat): (p: Parsed<seq<Value>>)
    requires v <= |s|
  {
    if At(s, v) == COMMA then ParseItems(s, v + 1)
    else if At(s, v) == RBRACKET then Done(v + 1, [])
    else Fail(v)
  }

  function MembersRest(s: seq<byte>, v: nat): (p: Parsed<seq<Member>>)
    requires v <= |s|
  {
    if At(s, v) == COMMA then ParseMembers(s, v + 1)
    else if At(s, v) == RBRACE then Done(v + 1, [])
    else Fail(v)
  }

  function PrependAll<T>(xs: seq<T>, p: Parsed<seq<T>>): Parsed<seq<T>> {
    match p
    case Done(next, ys) => Done(next, xs + ys)
    case Fail(at) => Fail(at)
    case OutOfBounds => OutOfBounds
  }

  lemma PrependOne<T>(xs: seq<T>, x: T, p: Parsed<seq<T>>)
    ensures PrependAll(xs, Prepend(x, p)) == PrependAll(xs + [x], p)
  {
    if p.Done? {
      assert xs + ([x] + p.value) == (xs + [x]) + p.value;
    }
  }

  lemma ItemsStep(s: seq<byte>, i: nat, n: nat, item: Value)
    requires i <= |s| && ParseValue(s, Skip(s, i)) == Done(n, item)
    ensures n <= |s| && ParseItems(s, i) == Prepend(item, ItemsRest(s, Skip(s, n)))
  {
    hide ParseValue, Skip, Occurs;
    assert [item] + [] == [item];
  }

  lemma ItemsStop(s: seq<byte>, i: nat)
    requires i <= |s|
    ensures ParseValue(s, Skip(s, i)).Fail? ==> ParseItems(s, i) == Fail(ParseValue(s, Skip(s, i)).at)
    ensures ParseValue(s, Skip(s, i)).OutOfBounds? ==> ParseItems(s, i).OutOfBounds?
  {
    hide ParseValue;
  }

  lemma MembersStep(s: seq<byte>, i: nat, n: nat, member: Member)
    requires i <= |s| && ParseMember(s, i) == Done(n, member)
    ensures n <= |s| && ParseMembers(s, i) == Prepend(member, MembersRest(s, Skip(s, n)))
  {
    hide ParseMember;
    assert [member] + [] == [member];
  }

  lemma MembersStop(s: seq<byte>, i: nat)
    requires i <= |s|
    ensures ParseMember(s, i).Fail? ==> ParseMembers(s, i) == Fail(ParseMember(s, i).at)
    ensures ParseMember(s, i).OutOfBounds? ==> ParseMembers(s, i).OutOfBounds?
  {
    hide ParseMember;
  }

  /** A new node of zeros behind the last one. */
  method AppendNode(lib: Library, child: Node, ghost kids: seq<Shape>) returns (item: Node?)
    requires |kids| > 0 && kids[|kids| - 1].node == child && SeparateAll(kids) && HoldsAll(kids)
    modifies lib`live, lib`failures, child`next
    ensures item == null ==> HoldsAll(kids) && lib.live == old(lib.live) && lib.failures > old(lib.failures)
    ensures item != null ==> fresh(item) && lib.live == old(lib.live) + {item} && lib.failures == old(lib.failures)
    ensures item != null ==> HoldsUpTo(kids, item) && item.prev == child && item.next == null
    ensures item != null ==>
      && item.child == null && item.valuestring == null && item.name == null
      && item.typ == TYPE_FALSE && item.valueint == 0
  {
    hide Nodes, NodesAll, Blocks, BlocksAll, SeparateAll, HoldsAll, HoldsUpTo;
    assert allocated(NodesAll(kids)) && allocated(BlocksAll(kids));
    item := lib.NewItem();
    if item != null {
      SuffixObject(child, item, kids);
    }
  }

  // ---------- the parser ----------

  /**
   What else the parser leaves in its nodes: known types, valueint, a valuestring just where there is a string,
   and a name just where there is a member.
   */
  ghost predicate AsParsed(sh: Shape)
    decreases sh
  {
    && sh.typ <= TYPE_OBJECT && sh.valueint == ValueInt(Abs(sh))
    && (sh.typ == TYPE_STRING <==> sh.str.Some?)
    && (sh.typ < TYPE_ARRAY ==> sh.kids == [])
    && (sh.typ == TYPE_OBJECT ==> forall i :: 0 <= i < |sh.kids| ==> sh.kids[i].name.Some?)
    && (sh.typ == TYPE_ARRAY ==> forall i :: 0 <= i < |sh.kids| ==> sh.kids[i].name.None?)
    && (forall i :: 0 <= i < |sh.kids| ==> AsParsed(sh.kids[i]))
  }

  /** Jumps over blanks, passing a null pointer on. */
  method SkipText(text: array?<byte>, ghost s: seq<byte>, start: int) returns (end: int)
    requires start == NULL || (text != null && CString(text, s) && 0 <= start <= |s|)
    ensures start == NULL ==> end == NULL
    ensures start != NULL ==> end == Skip(s, start)
  {
    end := start;
    if start != NULL {
      CharAt(text, s, end);
    }
    while end != NULL && text[end] != 0 && text[end] <= 32
      invariant start == NULL ==> end == NULL
      invariant start != NULL ==> start <= end <= |s| && Skip(s, start) == Skip(s, end) && text[end] == At(s, end)
      decreases |s| - end
    {
      CharAt(text, s, end);
      end := end + 1;
      CharAt(text, s, end);
    }
    if end != NULL {
      CharAt(text, s, end);
    }
  }

  /**
   parse_value into a node of zeros, which may already have its name. The structure below it is
   fresh, separate and linked; the ledger has grown by exactly that structure; the result is that of
   the parsing function unless an allocation failed, and then it is a null pointer.
   */
  method ParseValueItem(lib: Library, text: array?<byte>, ghost s: seq<byte>, item: Node, value: int,
                        ghost name: Option<Str>)
    returns (end: int, ghost sh: Shape)
    requires value == NULL || (text != null && CString(text, s) && 0 <= value <= |s|)
    requires value != NULL ==> !ParseValue(s, value).OutOfBounds?
    requires item.child == null && item.valuestring == null && StrHolds(item.name, name) && item.typ < IS_REFERENCE
    requires item.valueint == 0
    requires item in lib.live && BlockOf(name) <= lib.live
    modifies lib`ep, lib`live, lib`failures, item`child, item`typ, item`valuestring, item`valueint, item`valuedouble
    ensures sh.node == item && sh.name == name && Separate(sh) && Holds(sh)
    ensures fresh(Nodes(sh) - {item}) && fresh(Blocks(sh) - BlockOf(name))
    ensures lib.live == old(lib.live) + Foot(sh)
    ensures lib.failures >= old(lib.failures)
    ensures end != NULL ==> value != NULL && lib.failures == old(lib.failures) && lib.ep == old(lib.ep)
    ensures end != NULL ==> end >= 0 && ParseValue(s, value) == Done(end, Abs(sh)) && AsParsed(sh)
    ensures end == NULL && value != NULL && lib.failures == old(lib.failures) ==>
      ParseValue(s, value).Fail? && lib.ep == Some(ParseValue(s, value).at)
    ensures value == NULL || lib.failures > old(lib.failures) ==> lib.ep == old(lib.ep)
    decreases |s| - value, 1
  {
    hide ParseValue, ParseNumber, ParseString, Nodes, NodesAll, Blocks, BlocksAll, Separate, SeparateAll, HoldsAll;
    hide CString, Truncate, Occurs, AsParsed;
    EmptyHolds();
    end := NULL;
    if value == NULL {
      sh := Leaf(item, None, name);
      LeafBuilt(sh);
      return;
    }
    CharAt(text, s, value);
    end := ParseLiteral(text, s, item, value, name);
    if end != NULL {
      sh := Leaf(item, None, name);
      LeafBuilt(sh);
      LeafParsed(sh);
      return;
    }
    var c := text[value];
    if c == QUOTE {
      end, sh := ParseStringValue(lib, text, s, item, value, name);
    } else if c == '-' as int || '0' as int <= c <= '9' as int {
      NumberAt(s, value);
      end := ParseNumberItem(text, s, item, value);
      sh := Leaf(item, None, name);
      LeafBuilt(sh);
      LeafParsed(sh);
    } else if c == LBRACKET {
      end, sh := ParseArrayItem(lib, text, s, item, value, name);
    } else if c == LBRACE {
      end, sh := ParseObjectItem(lib, text, s, item, value, name);
    } else {
      NoValue(s, value);
      lib.ep := Some(value);
      sh := Leaf(item, None, name);
      LeafBuilt(sh);
    }
  }

  /** The three literals at the beginning of parse_value. */
  method ParseLiteral(text: array<byte>, ghost s: seq<byte>, item: Node, value: nat, ghost name: Option<Str>)
    returns (end: int)
    requires CString(text, s) && value <= |s| && item.typ < IS_REFERENCE && item.valueint == 0
    modifies item`typ, item`valueint
    ensures end != NULL ==>
      end >= 0 && item.typ < TYPE_NUMBER && ParseValue(s, value) == Done(end, Abs(Leaf(item, None, name)))
    ensures end != NULL ==> item.valueint == ValueInt(Abs(Leaf(item, None, name)))
    ensures end == NULL ==> item.typ == old(item.typ) && item.valueint == 0
    ensures end == NULL ==>
      !Occurs(s, value, NULL_TEXT) && !Occurs(s, value, FALSE_TEXT) && !Occurs(s, value, TRUE_TEXT)
  {
    hide CString, ParseValue, Occurs;
    Literals(s, value);
    var isNull := StartsWith(text, s, value, NULL_TEXT);
    if isNull {
      item.typ := TYPE_NULL;
      return value + 4;
    }
    var isFalse := StartsWith(text, s, value, FALSE_TEXT);
    if isFalse {
      item.typ := TYPE_FALSE;
      return value + 5;
    }
    var isTrue := StartsWith(text, s, value, TRUE_TEXT);
    if isTrue {
      item.typ := TYPE_TRUE;
      item.valueint := 1;
      return value + 4;
    }
    return NULL;
  }

  lemma LeafParsed(sh: Shape)
    requires sh.kids == [] && sh.str.None? && sh.typ <= TYPE_OBJECT && sh.typ != TYPE_STRING
    requires sh.valueint == ValueInt(Abs(sh))
    ensures AsParsed(sh)
  {
  }

  lemma Literals(s: seq<byte>, i: nat)
    requires i <= |s|
    ensures Occurs(s, i, NULL_TEXT) ==> ParseValue(s, i) == Done(i + 4, Null)
    ensures !Occurs(s, i, NULL_TEXT) && Occurs(s, i, FALSE_TEXT) ==> ParseValue(s, i) == Done(i + 5, False)
    ensures !Occurs(s, i, NULL_TEXT) && !Occurs(s, i, FALSE_TEXT) && Occurs(s, i, TRUE_TEXT) ==>
      ParseValue(s, i) == Done(i + 4, True)
  {
    hide ParseItems, ParseMembers, ParseString, ParseNumber;
  }

  lemma NoValue(s: seq<byte>, i: nat)
    requires i <= |s| && !Occurs(s, i, NULL_TEXT) && !Occurs(s, i, FALSE_TEXT) && !Occurs(s, i, TRUE_TEXT)
    requires At(s, i) != QUOTE && At(s, i) != MINUS && !IsDigit(At(s, i)) && At(s, i) != LBRACKET && At(s, i) != LBRACE
    ensures ParseValue(s, i) == Fail(i)
  {
    hide ParseItems, ParseMembers, ParseString, ParseNumber;
  }

  /** !strncmp(value, word, |word|) for a word without a terminator. */
  method StartsWith(text: array<byte>, ghost s: seq<byte>, start: nat, word: seq<byte>) returns (r: bool)
    requires CString(text, s) && start <= |s| && NulFree(word)
    ensures r <==> Occurs(s, start, word)
  {
    var i := 0;
    while i < |word|
      invariant i <= |word| && Occurs(s, start, word[..i])
    {
      CharAt(text, s, start + i);
      if text[start + i] != word[i] {
        if Occurs(s, start, word) {
          OccursAt(s, start, word, i);
        }
        return false;
      }
      assert s[start..start + i + 1] == s[start..start + i] + [word[i]];
      assert word[..i + 1] == word[..i] + [word[i]];
      i := i + 1;
    }
    assert word[..i] == word;
    return true;
  }

  method ParseStringValue(lib: Library, text: array<byte>, ghost s: seq<byte>, item: Node, value: nat,
                          ghost name: Option<Str>)
    returns (end: int, ghost sh: Shape)
    requires CString(text, s) && value < |s| && s[value] == QUOTE && !ParseValue(s, value).OutOfBounds?
    requires item.child == null && item.valuestring == null && StrHolds(item.name, name) && item.typ < IS_REFERENCE
    requires item.valueint == 0
    requires item in lib.live && BlockOf(name) <= lib.live
    modifies lib`ep, lib`live, lib`failures, item`typ, item`valuestring
    ensures sh.node == item && sh.name == name && Separate(sh) && Holds(sh)
    ensures fresh(Nodes(sh) - {item}) && fresh(Blocks(sh) - BlockOf(name))
    ensures lib.live == old(lib.live) + Foot(sh)
    ensures lib.failures >= old(lib.failures)
    ensures end != NULL ==> lib.failures == old(lib.failures) && lib.ep == old(lib.ep)
    ensures end != NULL ==> end >= 0 && ParseValue(s, value) == Done(end, Abs(sh)) && AsParsed(sh)
    ensures end == NULL ==> lib.failures > old(lib.failures) && lib.ep == old(lib.ep)
  {
    hide ParseValue, ParseString;
    StringAt(s, value);
    QuoteParses(s, value);
    ghost var str;
    end, str := ParseStringItem(lib, text, s, item, value);
    sh := Leaf(item, str, name);
    LeafBuilt(sh);
  }

  lemma QuoteParses(s: seq<byte>, i: nat)
    requires i < |s| && s[i] == QUOTE
    ensures !ParseString(s, i).Fail?
  {
  }

  // ---------- arrays ----------

  ghost predicate UnnamedItem(sh: Shape) { sh.name.None? && AsParsed(sh) }

  /** Parses the next value of a list into a node appended to it. */
  method NextItem(lib: Library, text: array<byte>, ghost s: seq<byte>, child: Node, value: nat, ghost kids: seq<Shape>)
    returns (item: Node?, end: int, ghost more: seq<Shape>)
    requires CString(text, s) && value <= |s| && !ParseValue(s, Skip(s, value)).OutOfBounds?
    requires |kids| > 0 && kids[|kids| - 1].node == child && SeparateAll(kids) && HoldsAll(kids)
    requires FootAll(kids) <= lib.live
    modifies lib`ep, lib`live, lib`failures, child`next
    ensures item == null ==> end == NULL && more == kids && lib.failures > old(lib.failures)
    ensures item != null ==> fresh(item) && |more| == |kids| + 1 && more[..|kids|] == kids && more[|kids|].node == item
    ensures SeparateAll(more) && HoldsAll(more)
    ensures fresh(NodesAll(more) - NodesAll(kids)) && fresh(BlocksAll(more) - BlocksAll(kids))
    ensures lib.live == old(lib.live) + FootAll(more) && FootAll(kids) <= FootAll(more)
    ensures lib.failures >= old(lib.failures)
    ensures end != NULL ==> item != null && lib.failures == old(lib.failures) && lib.ep == old(lib.ep)
    ensures end != NULL ==>
      end >= 0 && ParseValue(s, Skip(s, value)) == Done(end, Abs(more[|kids|])) && UnnamedItem(more[|kids|])
    ensures end == NULL && lib.failures == old(lib.failures) ==>
      ParseValue(s, Skip(s, value)).Fail? && lib.ep == Some(ParseValue(s, Skip(s, value)).at)
    ensures lib.failures > old(lib.failures) ==> lib.ep == old(lib.ep)
    decreases |s| - value, 2
  {
    hide ParseValue, Skip, Nodes, NodesAll, Blocks, BlocksAll, Separate, SeparateAll, HoldsAll, HoldsUpTo;
    more, end := kids, NULL;
    assert allocated(NodesAll(kids)) && allocated(BlocksAll(kids));
    item := AppendNode(lib, child, kids);
    if item != null {
      var start := SkipText(text, s, value);
      ghost var sh;
      end, sh := ParseValueItem(lib, text, s, item, start, None);
      assert HoldsUpTo(kids, item);
      AppendLinked(kids, sh);
      AppendShape(kids, sh);
      RootInFoot(sh);
      more := kids + [sh];
    }
  }

  /** Parses what follows the first item of a list, up to and with the closing bracket. */
  method ParseItemsTail(lib: Library, text: array<byte>, ghost s: seq<byte>, child: Node, value: nat,
                        ghost kids: seq<Shape>)
    returns (end: int, ghost all: seq<Shape>)
    requires CString(text, s) && value <= |s| && !ItemsRest(s, value).OutOfBounds?
    requires |kids| > 0 && kids[|kids| - 1].node == child && SeparateAll(kids) && HoldsAll(kids)
    requires FootAll(kids) <= lib.live
    modifies lib`ep, lib`live, lib`failures, child`next
    ensures |kids| <= |all| && all[..|kids|] == kids && SeparateAll(all) && HoldsAll(all)
    ensures fresh(NodesAll(all) - NodesAll(kids)) && fresh(BlocksAll(all) - BlocksAll(kids))
    ensures lib.live == old(lib.live) + FootAll(all) && FootAll(kids) <= FootAll(all)
    ensures lib.failures >= old(lib.failures)
    ensures end != NULL ==> lib.failures == old(lib.failures) && lib.ep == old(lib.ep)
    ensures end != NULL ==> end >= 0 && ItemsRest(s, value) == Done(end, AbsAll(all)[|kids|..])
    ensures end != NULL ==> forall i :: |kids| <= i < |all| ==> UnnamedItem(all[i])
    ensures end == NULL && lib.failures == old(lib.failures) ==>
      ItemsRest(s, value).Fail? && lib.ep == Some(ItemsRest(s, value).at)
    ensures lib.failures > old(lib.failures) ==> lib.ep == old(lib.ep)
    decreases |s| - value, 3
  {
    hide Holds, Linked, Prepend;
    hide ParseValue, ItemsRest, Skip, Nodes, NodesAll, Blocks, BlocksAll, Separate, SeparateAll, HoldsAll;
    hide CString, Abs, AbsAll, PrependAll, UnnamedItem;
    all := kids;
    var cur, v := child, value;
    CharAt(text, s, v);
    NothingItems(ItemsRest(s, value), AbsAll(all)[|kids|..]);
    while text[v] == COMMA
      invariant value <= v <= |s| && text[v] == At(s, v) && !ItemsRest(s, v).OutOfBounds?
      invariant |kids| <= |all| && all[..|kids|] == kids && all[|all| - 1].node == cur
      invariant SeparateAll(all) && HoldsAll(all)
      invariant cur == child || fresh(cur)
      invariant fresh(NodesAll(all) - NodesAll(kids)) && fresh(BlocksAll(all) - BlocksAll(kids))
      invariant lib.live == old(lib.live) + FootAll(all) && FootAll(kids) <= FootAll(all)
      invariant ItemsRest(s, value) == PrependAll(AbsAll(all)[|kids|..], ItemsRest(s, v))
      invariant forall i :: |kids| <= i < |all| ==> UnnamedItem(all[i])
      invariant lib.failures == old(lib.failures) && lib.ep == old(lib.ep)
      decreases |s| - v
    {
      ghost var before, soFar := all, AbsAll(all)[|kids|..];
      ItemsGiveUp(s, value, v, soFar);
      var item, e;
      item, e, all := NextItem(lib, text, s, cur, v + 1, all);
      assert all[..|kids|] == before[..|kids|];
      if e == NULL {
        return NULL, all;
      }
      ItemsProgress(s, value, v, soFar, e, Abs(all[|before|]));
      ItemsGrow(before, all, |kids|);
      cur := item;
      v := SkipText(text, s, e);
      CharAt(text, s, v);
    }
    ItemsOver(s, v, AbsAll(all)[|kids|..]);
    if text[v] == RBRACKET {
      return v + 1, all;
    }
    lib.ep := Some(v);
    return NULL, all;
  }

  lemma ItemsGrow(before: seq<Shape>, all: seq<Shape>, n: nat)
    requires n <= |before| && |all| == |before| + 1 && all[..|before|] == before
    ensures AbsAll(all)[n..] == AbsAll(before)[n..] + [Abs(all[|before|])]
  {
    hide Abs, AbsAll;
    assert forall i :: 0 <= i < |before| ==> all[i] == all[..|before|][i];
  }

  lemma MembersGrow(before: seq<Shape>, all: seq<Shape>, n: nat)
    requires n <= |before| && |all| == |before| + 1 && all[..|before|] == before
    ensures AbsMembers(all)[n..] == AbsMembers(before)[n..] + [MemberAbs(all[|before|])]
  {
    hide Abs, AbsMembers;
    assert forall i :: 0 <= i < |before| ==> all[i] == all[..|before|][i];
  }

  lemma ItemsGiveUp(s: seq<byte>, value: nat, v: nat, soFar: seq<Value>)
    requires value <= |s| && v < |s| && s[v] == COMMA && ItemsRest(s, value) == PrependAll(soFar, ItemsRest(s, v))
    ensures var p := ParseValue(s, Skip(s, v + 1));
      && (p.Fail? ==> ItemsRest(s, value) == Fail(p.at))
      && (p.OutOfBounds? ==> ItemsRest(s, v).OutOfBounds?)
  {
    hide ParseValue, ParseItems, Skip;
    ItemsStop(s, v + 1);
  }

  lemma ItemsProgress(s: seq<byte>, value: nat, v: nat, soFar: seq<Value>, e: nat, x: Value)
    requires value <= |s| && v < |s| && s[v] == COMMA && ItemsRest(s, value) == PrependAll(soFar, ItemsRest(s, v))
    requires ParseValue(s, Skip(s, v + 1)) == Done(e, x)
    ensures e <= |s| && e <= Skip(s, e) <= |s| && v < e
    ensures ItemsRest(s, value) == PrependAll(soFar + [x], ItemsRest(s, Skip(s, e)))
    ensures ItemsRest(s, Skip(s, e)).OutOfBounds? ==> ItemsRest(s, v).OutOfBounds?
  {
    hide ParseValue, ParseItems;
    ItemsStep(s, v + 1, e, x);
    PrependOne(soFar, x, ItemsRest(s, Skip(s, e)));
  }

  lemma ItemsOver(s: seq<byte>, v: nat, all: seq<Value>)
    requires v <= |s| && At(s, v) != COMMA
    ensures PrependAll(all, ItemsRest(s, v)) == if At(s, v) == RBRACKET then Done(v + 1, all) else Fail(v)
  {
    assert all + [] == all;
  }

  lemma NothingItems(p: Parsed<seq<Value>>, none: seq<Value>)
    requires none == []
    ensures PrependAll(none, p) == p
  {
    if p.Done? {
      assert none + p.value == p.value;
    }
  }

  lemma SkipBounds(s: seq<byte>, i: nat)
    requires i <= |s|
    ensures i <= Skip(s, i) <= |s|
  {
  }

  /** The children of an array that is not empty: the first gets a node of its own, then the rest. */
  method ParseItemList(lib: Library, text: array<byte>, ghost s: seq<byte>, item: Node, value: nat)
    returns (end: int, ghost kids: seq<Shape>)
    requires CString(text, s) && value <= |s| && !ParseItems(s, value).OutOfBounds? && item.child == null
    modifies lib`ep, lib`live, lib`failures, item`child
    ensures item.child == First(kids) && SeparateAll(kids) && HoldsAll(kids)
    ensures fresh(NodesAll(kids)) && fresh(BlocksAll(kids))
    ensures lib.live == old(lib.live) + FootAll(kids)
    ensures lib.failures >= old(lib.failures)
    ensures end != NULL ==> lib.failures == old(lib.failures) && lib.ep == old(lib.ep)
    ensures end != NULL ==> end >= 0 && ParseItems(s, value) == Done(end, AbsAll(kids))
    ensures end != NULL ==> forall i :: 0 <= i < |kids| ==> UnnamedItem(kids[i])
    ensures end == NULL && lib.failures == old(lib.failures) ==>
      ParseItems(s, value).Fail? && lib.ep == Some(ParseItems(s, value).at)
    ensures lib.failures > old(lib.failures) ==> lib.ep == old(lib.ep)
    decreases |s| - value, 2
  {
    hide Holds, Linked, Prepend;
    hide ParseValue, ParseItems, ItemsRest, Skip, Nodes, NodesAll, Blocks, BlocksAll, Separate, SeparateAll, HoldsAll;
    hide CString, Abs, AbsAll, AsParsed;
    SkipBounds(s, value);
    ItemsStop(s, value);
    end, kids := NULL, [];
    var child := lib.NewItem();
    item.child := child;
    if child == null {
      EmptyHolds();
      return;
    }
    var start := SkipText(text, s, value);
    ghost var first;
    var e;
    e, first := ParseValueItem(lib, text, s, child, start, None);
    kids := [first];
    OneKid(first);
    RootInFoot(first);
    if e != NULL {
      end, kids := ParseItemsAfter(lib, text, s, child, value, e, first);
    }
  }

  /** What follows the first item. */
  method ParseItemsAfter(lib: Library, text: array<byte>, ghost s: seq<byte>, child: Node, ghost value: nat, e: nat,
                         ghost first: Shape)
    returns (end: int, ghost kids: seq<Shape>)
    requires CString(text, s) && value <= |s| && !ParseItems(s, value).OutOfBounds?
    requires ParseValue(s, Skip(s, value)) == Done(e, Abs(first)) && UnnamedItem(first) && first.node == child
    requires SeparateAll([first]) && HoldsAll([first]) && FootAll([first]) <= lib.live
    modifies lib`ep, lib`live, lib`failures, child`next
    ensures 1 <= |kids| && kids[0] == first && SeparateAll(kids) && HoldsAll(kids)
    ensures fresh(NodesAll(kids) - NodesAll([first])) && fresh(BlocksAll(kids) - BlocksAll([first]))
    ensures lib.live == old(lib.live) + FootAll(kids) && FootAll([first]) <= FootAll(kids)
    ensures lib.failures >= old(lib.failures)
    ensures end != NULL ==> lib.failures == old(lib.failures) && lib.ep == old(lib.ep)
    ensures end != NULL ==> end >= 0 && ParseItems(s, value) == Done(end, AbsAll(kids))
    ensures end != NULL ==> forall i :: 0 <= i < |kids| ==> UnnamedItem(kids[i])
    ensures end == NULL && lib.failures == old(lib.failures) ==>
      ParseItems(s, value).Fail? && lib.ep == Some(ParseItems(s, value).at)
    ensures lib.failures > old(lib.failures) ==> lib.ep == old(lib.ep)
    decreases |s| - value, 1
  {
    hide Holds, Linked, Prepend, CString, Abs, AbsAll, UnnamedItem;
    hide ParseValue, ParseItems, ItemsRest, Skip, Nodes, NodesAll, Blocks, BlocksAll, Separate, SeparateAll, HoldsAll;
    ItemsStep(s, value, e, Abs(first));
    SkipBounds(s, value);
    SkipBounds(s, e);
    var v := SkipText(text, s, e);
    PrependIs(Abs(first), ItemsRest(s, v));
    end, kids := ParseItemsTail(lib, text, s, child, v, [first]);
    HeadAndTail(kids, first);
  }

  lemma PrependIs<T>(x: T, p: Parsed<seq<T>>)
    ensures Prepend(x, p).OutOfBounds? <==> p.OutOfBounds?
    ensures p.Done? ==> Prepend(x, p) == Done(p.next, [x] + p.value)
    ensures p.Fail? ==> Prepend(x, p) == Fail(p.at)
  {
  }

  lemma HeadAndTail(kids: seq<Shape>, first: Shape)
    requires |kids| >= 1 && kids[..1] == [first]
    ensures kids[0] == first && AbsAll(kids) == [Abs(first)] + AbsAll(kids)[1..]
    ensures AbsMembers(kids) == [Member(TextOf(first.name), Abs(first))] + AbsMembers(kids)[1..]
  {
    assert kids[0] == kids[..1][0];
  }

  /** parse_array */
  method ParseArrayItem(lib: Library, text: array<byte>, ghost s: seq<byte>, item: Node, value: nat,
                        ghost name: Option<Str>)
    returns (end: int, ghost sh: Shape)
    requires CString(text, s) && value < |s| && s[value] == LBRACKET && !ParseValue(s, value).OutOfBounds?
    requires item.child == null && item.valuestring == null && StrHolds(item.name, name) && item.typ < IS_REFERENCE
    requires item.valueint == 0
    requires item in lib.live && BlockOf(name) <= lib.live
    modifies lib`ep, lib`live, lib`failures, item`child, item`typ
    ensures sh.node == item && sh.name == name && Separate(sh) && Holds(sh)
    ensures fresh(Nodes(sh) - {item}) && fresh(Blocks(sh) - BlockOf(name))
    ensures lib.live == old(lib.live) + Foot(sh)
    ensures lib.failures >= old(lib.failures)
    ensures end != NULL ==> lib.failures == old(lib.failures) && lib.ep == old(lib.ep)
    ensures end != NULL ==> end >= 0 && ParseValue(s, value) == Done(end, Abs(sh)) && AsParsed(sh)
    ensures end == NULL && lib.failures == old(lib.failures) ==>
      ParseValue(s, value).Fail? && lib.ep == Some(ParseValue(s, value).at)
    ensures lib.failures > old(lib.failures) ==> lib.ep == old(lib.ep)
    decreases |s| - value, 0
  {
    hide ParseValue, ParseItems, Skip, Nodes, NodesAll, Blocks, BlocksAll, Separate, SeparateAll, HoldsAll, CString;
    ArrayAt(s, value);
    SkipBounds(s, value + 1);
    item.typ := TYPE_ARRAY;
    var v := SkipText(text, s, value + 1);
    CharAt(text, s, v);
    if text[v] == RBRACKET {
      EmptyHolds();
      sh := Leaf(item, None, name);
      LeafBuilt(sh);
      return v + 1, sh;
    }
    ItemsFromSkip(s, value + 1);
    ghost var kids;
    end, kids := ParseItemList(lib, text, s, item, v);
    sh := Shape(item, item.typ, None, item.valueint, item.valuedouble, name, kids);
    ParentBuilt(sh);
  }

  // ---------- objects ----------

  /** The member that a child of an object stands for. */
  ghost function MemberAbs(sh: Shape): Member { Member(TextOf(sh.name), Abs(sh)) }

  ghost predicate NamedMember(sh: Shape) { sh.name.Some? && AsParsed(sh) }

  /** A name, a colon and a value, into a node of zeros: the name moves over from valuestring. */
  method ParseMemberItem(lib: Library, text: array<byte>, ghost s: seq<byte>, item: Node, value: nat)
    returns (end: int, ghost sh: Shape)
    requires CString(text, s) && value <= |s| && !ParseMember(s, value).OutOfBounds?
    requires item.child == null && item.valuestring == null && item.name == null && item.typ < IS_REFERENCE
    requires item.valueint == 0 && item in lib.live
    modifies lib`ep, lib`live, lib`failures, item`child, item`typ, item`valuestring, item`valueint, item`valuedouble
    modifies item`name
    ensures sh.node == item && Separate(sh) && Holds(sh)
    ensures fresh(Nodes(sh) - {item}) && fresh(Blocks(sh))
    ensures lib.live == old(lib.live) + Foot(sh)
    ensures lib.failures >= old(lib.failures)
    ensures end != NULL ==> lib.failures == old(lib.failures) && lib.ep == old(lib.ep)
    ensures end != NULL ==> end >= 0 && ParseMember(s, value) == Done(end, MemberAbs(sh)) && NamedMember(sh)
    ensures end == NULL && lib.failures == old(lib.failures) ==>
      ParseMember(s, value).Fail? && lib.ep == Some(ParseMember(s, value).at)
    ensures lib.failures > old(lib.failures) ==> lib.ep == old(lib.ep)
    decreases |s| - value, 2
  {
    hide ParseValue, ParseString, ParseMember, Skip, Nodes, NodesAll, Blocks, BlocksAll, Separate, SeparateAll;
    hide HoldsAll, AsParsed, Abs;
    SkipBounds(s, value);
    MemberStop(s, value);
    var start := SkipText(text, s, value);
    ghost var str;
    end, str := ParseStringItem(lib, text, s, item, start);
    if end == NULL {
      EmptyHolds();
      sh := Leaf(item, None, None);
      LeafBuilt(sh);
      return;
    }
    MemberAfterName(s, value, end, str.value.text);
    end, sh := ParseMemberValue(lib, text, s, item, end, str);
    NameInFoot(sh);
  }

  /**
   What follows the name of a member: the node's valuestring becomes its name, and the value is read into the node.
   */
  method ParseMemberValue(lib: Library, text: array<byte>, ghost s: seq<byte>, item: Node, value: nat,
                          ghost name: Option<Str>)
    returns (end: int, ghost sh: Shape)
    requires CString(text, s) && value <= |s| && name.Some? && !ValueAfterName(s, value, name.value.text).OutOfBounds?
    requires item.child == null && StrHolds(item.valuestring, name) && item.typ < IS_REFERENCE && item.valueint == 0
    requires item in lib.live && BlockOf(name) <= lib.live
    modifies lib`ep, lib`live, lib`failures, item`child, item`typ, item`valuestring, item`valueint, item`valuedouble
    modifies item`name
    ensures sh.node == item && sh.name == name && Separate(sh) && Holds(sh)
    ensures fresh(Nodes(sh) - {item}) && fresh(Blocks(sh) - BlockOf(name))
    ensures lib.live == old(lib.live) + Foot(sh)
    ensures lib.failures >= old(lib.failures)
    ensures end != NULL ==> lib.failures == old(lib.failures) && lib.ep == old(lib.ep)
    ensures end != NULL ==>
      end >= 0 && ValueAfterName(s, value, name.value.text) == Done(end, MemberAbs(sh)) && NamedMember(sh)
    ensures end == NULL && lib.failures == old(lib.failures) ==> var p := ValueAfterName(s, value, name.value.text);
      p.Fail? && lib.ep == Some(p.at)
    ensures lib.failures > old(lib.failures) ==> lib.ep == old(lib.ep)
    decreases |s| - value, 2
  {
    hide ParseValue, Skip, Nodes, NodesAll, Blocks, BlocksAll, Separate, SeparateAll, HoldsAll, AsParsed, Abs, CString;
    SkipBounds(s, value);
    var v := SkipText(text, s, value);
    item.name := item.valuestring;
    item.valuestring := null;
    CharAt(text, s, v);
    if text[v] != COLON {
      lib.ep := Some(v);
      EmptyHolds();
      sh := Leaf(item, None, name);
      LeafBuilt(sh);
      return NULL, sh;
    }
    SkipBounds(s, v + 1);
    v := SkipText(text, s, v + 1);
    end, sh := ParseValueItem(lib, text, s, item, v, name);
  }

  /** The rest of a member on the text, behind its name. */
  function ValueAfterName(s: seq<byte>, n: nat, name: seq<byte>): Parsed<Member>
    requires n <= |s|
  {
    if At(s, Skip(s, n)) == COLON then AsMember(name, ParseValue(s, Skip(s, Skip(s, n) + 1))) else Fail(Skip(s, n))
  }

  lemma MemberStop(s: seq<byte>, i: nat)
    requires i <= |s|
    ensures ParseString(s, Skip(s, i)).Fail? ==> ParseMember(s, i) == Fail(ParseString(s, Skip(s, i)).at)
    ensures ParseString(s, Skip(s, i)).OutOfBounds? ==> ParseMember(s, i).OutOfBounds?
  {
    hide ParseString, ParseValue;
  }

  lemma MemberAfterName(s: seq<byte>, i: nat, n: nat, name: seq<byte>)
    requires i <= |s| && ParseString(s, Skip(s, i)) == Done(n, name)
    ensures n <= |s| && Skip(s, i) < n
    ensures ParseMember(s, i) == ValueAfterName(s, n, name)
  {
    hide ParseString, ParseValue;
  }

  /** Parses the next member of a list into a node appended to it. */
  method NextMember(lib: Library, text: array<byte>, ghost s: seq<byte>, child: Node, value: nat,
                    ghost kids: seq<Shape>)
    returns (item: Node?, end: int, ghost more: seq<Shape>)
    requires CString(text, s) && value <= |s| && !ParseMember(s, value).OutOfBounds?
    requires |kids| > 0 && kids[|kids| - 1].node == child && SeparateAll(kids) && HoldsAll(kids)
    requires FootAll(kids) <= lib.live
    modifies lib`ep, lib`live, lib`failures, child`next
    ensures item == null ==> end == NULL && more == kids && lib.failures > old(lib.failures)
    ensures item != null ==> fresh(item) && |more| == |kids| + 1 && more[..|kids|] == kids && more[|kids|].node == item
    ensures SeparateAll(more) && HoldsAll(more)
    ensures fresh(NodesAll(more) - NodesAll(kids)) && fresh(BlocksAll(more) - BlocksAll(kids))
    ensures lib.live == old(lib.live) + FootAll(more) && FootAll(kids) <= FootAll(more)
    ensures lib.failures >= old(lib.failures)
    ensures end != NULL ==> item != null && lib.failures == old(lib.failures) && lib.ep == old(lib.ep)
    ensures end != NULL ==>
      end >= 0 && ParseMember(s, value) == Done(end, MemberAbs(more[|kids|])) && NamedMember(more[|kids|])
    ensures end == NULL && lib.failures == old(lib.failures) ==>
      ParseMember(s, value).Fail? && lib.ep == Some(ParseMember(s, value).at)
    ensures lib.failures > old(lib.failures) ==> lib.ep == old(lib.ep)
    decreases |s| - value, 3
  {
    hide ParseMember, Nodes, NodesAll, Blocks, BlocksAll, Separate, SeparateAll, HoldsAll, HoldsUpTo;
    more, end := kids, NULL;
    assert allocated(NodesAll(kids)) && allocated(BlocksAll(kids));
    item := AppendNode(lib, child, kids);
    if item != null {
      ghost var sh;
      end, sh := ParseMemberItem(lib, text, s, item, value);
      assert HoldsUpTo(kids, item);
      AppendLinked(kids, sh);
      AppendShape(kids, sh);
      RootInFoot(sh);
      more := kids + [sh];
    }
  }

  /** Parses what follows the first member of a list, up to and with the closing brace. */
  method ParseMembersTail(lib: Library, text: array<byte>, ghost s: seq<byte>, child: Node, value: nat,
                          ghost kids: seq<Shape>)
    returns (end: int, ghost all: seq<Shape>)
    requires CString(text, s) && value <= |s| && !MembersRest(s, value).OutOfBounds?
    requires |kids| > 0 && kids[|kids| - 1].node == child && SeparateAll(kids) && HoldsAll(kids)
    requires FootAll(kids) <= lib.live
    modifies lib`ep, lib`live, lib`failures, child`next
    ensures |kids| <= |all| && all[..|kids|] == kids && SeparateAll(all) && HoldsAll(all)
    ensures fresh(NodesAll(all) - NodesAll(kids)) && fresh(BlocksAll(all) - BlocksAll(kids))
    ensures lib.live == old(lib.live) + FootAll(all) && FootAll(kids) <= FootAll(all)
    ensures lib.failures >= old(lib.failures)
    ensures end != NULL ==> lib.failures == old(lib.failures) && lib.ep == old(lib.ep)
    ensures end != NULL ==> end >= 0 && MembersRest(s, value) == Done(end, AbsMembers(all)[|kids|..])
    ensures end != NULL ==> forall i :: |kids| <= i < |all| ==> NamedMember(all[i])
    ensures end == NULL && lib.failures == old(lib.failures) ==>
      MembersRest(s, value).Fail? && lib.ep == Some(MembersRest(s, value).at)
    ensures lib.failures > old(lib.failures) ==> lib.ep == old(lib.ep)
    decreases |s| - value, 4
  {
    hide Holds, Linked, Prepend;
    hide ParseMember, MembersRest, Skip, Nodes, NodesAll, Blocks, BlocksAll, Separate, SeparateAll, HoldsAll;
    hide CString, Abs, AbsMembers, PrependAll, NamedMember, MemberAbs, HoldsUpTo;
    all := kids;
    var cur, v := child, value;
    CharAt(text, s, v);
    NothingMembers(MembersRest(s, value), AbsMembers(all)[|kids|..]);
    while text[v] == COMMA
      invariant value <= v <= |s| && text[v] == At(s, v) && !MembersRest(s, v).OutOfBounds?
      invariant |kids| <= |all| && all[..|kids|] == kids && all[|all| - 1].node == cur
      invariant SeparateAll(all) && HoldsAll(all)
      invariant cur == child || fresh(cur)
      invariant fresh(NodesAll(all) - NodesAll(kids)) && fresh(BlocksAll(all) - BlocksAll(kids))
      invariant lib.live == old(lib.live) + FootAll(all) && FootAll(kids) <= FootAll(all)
      invariant MembersRest(s, value) == PrependAll(AbsMembers(all)[|kids|..], MembersRest(s, v))
      invariant forall i :: |kids| <= i < |all| ==> NamedMember(all[i])
      invariant lib.failures == old(lib.failures) && lib.ep == old(lib.ep)
      decreases |s| - v
    {
      ghost var before, soFar := all, AbsMembers(all)[|kids|..];
      MembersGiveUp(s, value, v, soFar);
      var item, e;
      item, e, all := NextMember(lib, text, s, cur, v + 1, all);
      assert all[..|kids|] == before[..|kids|];
      if e == NULL {
        return NULL, all;
      }
      MembersProgress(s, value, v, soFar, e, MemberAbs(all[|before|]));
      MembersGrow(before, all, |kids|);
      cur := item;
      v := SkipText(text, s, e);
      CharAt(text, s, v);
    }
    MembersOver(s, v, AbsMembers(all)[|kids|..]);
    if text[v] == RBRACE {
      return v + 1, all;
    }
    lib.ep := Some(v);
    return NULL, all;
  }

  lemma MembersGiveUp(s: seq<byte>, value: nat, v: nat, soFar: seq<Member>)
    requires value <= |s| && v < |s| && s[v] == COMMA && MembersRest(s, value) == PrependAll(soFar, MembersRest(s, v))
    ensures var p := ParseMember(s, v + 1);
      && (p.Fail? ==> MembersRest(s, value) == Fail(p.at))
      && (p.OutOfBounds? ==> MembersRest(s, v).OutOfBounds?)
  {
    hide ParseMember, ParseMembers;
    MembersStop(s, v + 1);
  }

  lemma MembersProgress(s: seq<byte>, value: nat, v: nat, soFar: seq<Member>, e: nat, x: Member)
    requires value <= |s| && v < |s| && s[v] == COMMA && MembersRest(s, value) == PrependAll(soFar, MembersRest(s, v))
    requires ParseMember(s, v + 1) == Done(e, x)
    ensures e <= |s| && e <= Skip(s, e) <= |s| && v < e
    ensures MembersRest(s, value) == PrependAll(soFar + [x], MembersRest(s, Skip(s, e)))
    ensures MembersRest(s, Skip(s, e)).OutOfBounds? ==> MembersRest(s, v).OutOfBounds?
  {
    hide ParseMember, ParseMembers;
    MembersStep(s, v + 1, e, x);
    PrependOne(soFar, x, MembersRest(s, Skip(s, e)));
  }

  lemma MembersOver(s: seq<byte>, v: nat, all: seq<Member>)
    requires v <= |s| && At(s, v) != COMMA
    ensures PrependAll(all, MembersRest(s, v)) == if At(s, v) == RBRACE then Done(v + 1, all) else Fail(v)
  {
    assert all + [] == all;
  }

  lemma NothingMembers(p: Parsed<seq<Member>>, none: seq<Member>)
    requires none == []
    ensures PrependAll(none, p) == p
  {
    if p.Done? {
      assert none + p.value == p.value;
    }
  }

  /** The children of an object that is not empty: the first gets a node of its own, then the rest. */
  method ParseMemberList(lib: Library, text: array<byte>, ghost s: seq<byte>, item: Node, value: nat)
    returns (end: int, ghost kids: seq<Shape>)
    requires CString(text, s) && value <= |s| && !ParseMembers(s, value).OutOfBounds? && item.child == null
    modifies lib`ep, lib`live, lib`failures, item`child
    ensures item.child == First(kids) && SeparateAll(kids) && HoldsAll(kids)
    ensures fresh(NodesAll(kids)) && fresh(BlocksAll(kids))
    ensures lib.live == old(lib.live) + FootAll(kids)
    ensures lib.failures >= old(lib.failures)
    ensures end != NULL ==> lib.failures == old(lib.failures) && lib.ep == old(lib.ep)
    ensures end != NULL ==> end >= 0 && ParseMembers(s, value) == Done(end, AbsMembers(kids))
    ensures end != NULL ==> forall i :: 0 <= i < |kids| ==> NamedMember(kids[i])
    ensures end == NULL && lib.failures == old(lib.failures) ==>
      ParseMembers(s, value).Fail? && lib.ep == Some(ParseMembers(s, value).at)
    ensures lib.failures > old(lib.failures) ==> lib.ep == old(lib.ep)
    decreases |s| - value, 3
  {
    hide Holds, Linked, Prepend;
    hide ParseMember, ParseMembers, MembersRest, Skip, Nodes, NodesAll, Blocks, BlocksAll, Separate, SeparateAll;
    hide HoldsAll;
    hide CString, Abs, AbsMembers, NamedMember;
    SkipBounds(s, value);
    MembersStop(s, value);
    end, kids := NULL, [];
    var child := lib.NewItem();
    item.child := child;
    if child == null {
      EmptyHolds();
      return;
    }
    ghost var first;
    var e;
    e, first := ParseMemberItem(lib, text, s, child, value);
    kids := [first];
    OneKid(first);
    RootInFoot(first);
    if e != NULL {
      MembersStep(s, value, e, MemberAbs(first));
      SkipBounds(s, e);
      var v := SkipText(text, s, e);
      PrependIs(MemberAbs(first), MembersRest(s, v));
      end, kids := ParseMembersTail(lib, text, s, child, v, kids);
      HeadAndTail(kids, first);
    }
  }

  /** parse_object */
  method ParseObjectItem(lib: Library, text: array<byte>, ghost s: seq<byte>, item: Node, value: nat,
                         ghost name: Option<Str>)
    returns (end: int, ghost sh: Shape)
    requires CString(text, s) && value < |s| && s[value] == LBRACE && !ParseValue(s, value).OutOfBounds?
    requires item.child == null && item.valuestring == null && StrHolds(item.name, name) && item.typ < IS_REFERENCE
    requires item.valueint == 0
    requires item in lib.live && BlockOf(name) <= lib.live
    modifies lib`ep, lib`live, lib`failures, item`child, item`typ
    ensures sh.node == item && sh.name == name && Separate(sh) && Holds(sh)
    ensures fresh(Nodes(sh) - {item}) && fresh(Blocks(sh) - BlockOf(name))
    ensures lib.live == old(lib.live) + Foot(sh)
    ensures lib.failures >= old(lib.failures)
    ensures end != NULL ==> lib.failures == old(lib.failures) && lib.ep == old(lib.ep)
    ensures end != NULL ==> end >= 0 && ParseValue(s, value) == Done(end, Abs(sh)) && AsParsed(sh)
    ensures end == NULL && lib.failures == old(lib.failures) ==>
      ParseValue(s, value).Fail? && lib.ep == Some(ParseValue(s, value).at)
    ensures lib.failures > old(lib.failures) ==> lib.ep == old(lib.ep)
    decreases |s| - value, 0
  {
    hide ParseValue, ParseMembers, Skip, Nodes, NodesAll, Blocks, BlocksAll, Separate, SeparateAll, HoldsAll, CString;
    ObjectAt(s, value);
    SkipBounds(s, value + 1);
    item.typ := TYPE_OBJECT;
    var v := SkipText(text, s, value + 1);
    CharAt(text, s, v);
    if text[v] == RBRACE {
      EmptyHolds();
      sh := Leaf(item, None, name);
      LeafBuilt(sh);
      return v + 1, sh;
    }
    MembersFromSkip(s, value + 1);
    ghost var kids;
    end, kids := ParseMemberList(lib, text, s, item, v);
    sh := Shape(item, item.typ, None, item.valueint, item.valuedouble, name, kids);
    ParentBuilt(sh);
  }

}
