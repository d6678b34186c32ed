/**
 The heap under cJSON.c: nodes linked by pointers, C strings in blocks of bytes, and the ledger of
 the blocks that have been allocated and not yet freed.
 */
module Heap {
  import opened Bytes
  import opened CText

  const NULL: int := -1

  const TYPE_FALSE := 0
  const TYPE_TRUE := 1
  const TYPE_NULL := 2
  const TYPE_NUMBER := 3
  const TYPE_STRING := 4
  const TYPE_ARRAY := 5
  const TYPE_OBJECT := 6
  const IS_REFERENCE := 256

  class Node {
    var next: Node?
    var prev: Node?
    var child: Node?
    var typ: nat
    var valuestring: array?<byte>
    var valueint: int
    var valuedouble: real
    var name: array?<byte>

    /** A block from the allocator: its fields hold anything. */
    constructor Uninitialised()
    {
    }
  }

  predicate IsReference(typ: nat) { typ / IS_REFERENCE % 2 == 1 }

  /** The block holds the string and its terminator. */
  ghost predicate CString(block: array<byte>, s: seq<byte>)
    reads block
  {
    |s| < block.Length && block[..|s|] == s && block[|s|] == 0 && NulFree(s)
  }

  lemma CStringIsText(block: array<byte>, s: seq<byte>)
    ensures CString(block, s) <==> TextAt(block, 0, s)
  {
  }

  lemma CharAt(block: array<byte>, s: seq<byte>, k: nat)
    requires CString(block, s) && k <= |s|
    ensures |s| < block.Length
    ensures block[k] == At(s, k) && (block[k] == 0 <==> k == |s|)
  {
    if k < |s| {
      assert block[..|s|][k] == s[k];
    }
  }

  /**
   The static state of cJSON.c: the error pointer, and the heap behind its allocation hooks, with the
   ledger of live blocks, the number of failed allocations, and those of accesses through a null pointer and
   of reads behind the end of a block.
   */
  class Library {
    var ep: Option<nat>
    ghost var live: set<object>
    ghost var failures: nat
    ghost var nullWrites: nat
    ghost var overReads: nat

    constructor ()
      ensures ep == None && live == {} && failures == 0 && nullWrites == 0 && overReads == 0
    {
      ep := None;
      live := {};
      failures, nullWrites, overReads := 0, 0, 0;
    }

    /** chHeapAlloc, which may fail at any call. */
    method Malloc(n: nat) returns (block: array?<byte>)
      modifies this`live, this`failures
      ensures block == null ==> live == old(live) && failures == old(failures) + 1
      ensures block != null ==> fresh(block) && block.Length == n && failures == old(failures)
      ensures block != null ==> live == old(live) + {block}
    {
      if * {
        failures := failures + 1;
        return null;
      }
      block := new byte[n];
      live := live + {block};
    }

    /** An array of pointers, set to null. */
    method MallocPointers(n: nat) returns (block: array?<array?<byte>>)
      modifies this`live, this`failures
      ensures block == null ==> live == old(live) && failures == old(failures) + 1
      ensures block != null ==> fresh(block) && block.Length == n && failures == old(failures)
      ensures block != null ==> live == old(live) + {block} && forall k :: 0 <= k < n ==> block[k] == null
    {
      if * {
        failures := failures + 1;
        return null;
      }
      block := new array?<byte>[n](_ => null);
      live := live + {block};
    }

    /** cJSON_New_Item: a node of zeros. */
    method NewItem() returns (node: Node?)
      modifies this`live, this`failures
      ensures node == null ==> live == old(live) && failures == old(failures) + 1
      ensures node != null ==> fresh(node) && failures == old(failures) && live == old(live) + {node}
      ensures node != null ==> node.next == null && node.prev == null && node.child == null && node.typ == TYPE_FALSE
      ensures node != null ==> node.valuestring == null && node.name == null
      ensures node != null ==> node.valueint == 0 && node.valuedouble == 0.0
    {
      if * {
        failures := failures + 1;
        return null;
      }
      node := new Node.Uninitialised();
      live := live + {node};
      node.next, node.prev, node.child := null, null, null;
      node.typ, node.valuestring, node.name := TYPE_FALSE, null, null;
      node.valueint, node.valuedouble := 0, 0.0;
    }

    /** chHeapFree: only a block that is allocated and not yet freed may be given back. */
    method Free(block: object)
      requires block in live
      modifies this`live
      ensures live == old(live) - {block}
    {
      live := live - {block};
    }

    /** strlen + memcpy: a copy of a string in a block of its own. */
    method Strdup(str: array<byte>, ghost s: seq<byte>) returns (copy: array?<byte>)
      requires CString(str, s)
      modifies this`live, this`failures
      ensures copy == null ==> live == old(live) && failures == old(failures) + 1
      ensures copy != null ==> fresh(copy) && CString(copy, s) && copy.Length == |s| + 1
      ensures copy != null ==> live == old(live) + {copy} && failures == old(failures)
    {
      var len := Strlen(str, s);
      copy := Malloc(len + 1);
      if copy == null { return; }
      var i := 0;
      while i < len + 1
        invariant i <= len + 1 && forall k :: 0 <= k < i ==> copy[k] == str[k]
        modifies copy
      {
        copy[i] := str[i];
        i := i + 1;
      }
      assert copy[..|s|] == str[..|s|];
    }
  }

  /** A literal, which is a C string in static memory. */
  method Literal(s: seq<byte>) returns (a: array<byte>)
    requires NulFree(s)
    ensures fresh(a) && CString(a, s)
  {
    a := new byte[|s| + 1](i requires 0 <= i <= |s| => if i < |s| then s[i] else 0);
    assert a[..|s|] == s;
  }

  method Strlen(str: array<byte>, ghost s: seq<byte>) returns (len: nat)
    requires CString(str, s)
    ensures len == |s|
  {
    len := 0;
    while str[len] != 0
      invariant len <= |s|
      decreases |s| - len
    {
      CharAt(str, s, len);
      len := len + 1;
    }
    CharAt(str, s, len);
  }
}
