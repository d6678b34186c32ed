/**
 C strings anywhere in a block of bytes.
 */
module CText {
  import opened Bytes

  /** The string t with its terminator starts at i in the buffer. */
  ghost predicate TextAt(line: array<byte>, i: int, t: seq<byte>)
    reads line
  {
    0 <= i && i + |t| < line.Length && line[i..i + |t|] == t && line[i + |t|] == 0 && NulFree(t)
  }

  lemma TextCharAt(line: array<byte>, i: int, t: seq<byte>, k: nat)
    requires TextAt(line, i, t) && k <= |t|
    ensures line[i + k] == At(t, k) && (line[i + k] == 0 <==> k == |t|)
  {
    if k < |t| { assert line[i..i + |t|][k] == t[k]; }
  }

  /** !strcmp with a literal. */
  method StrEqual(line: array<byte>, name: nat, literal: seq<byte>, ghost w: seq<byte>) returns (same: bool)
    requires TextAt(line, name, w) && NulFree(literal)
    ensures same <==> w == literal
  {
    var i := 0;
    TextCharAt(line, name, w, 0);
    while i < |literal|
      invariant i <= |literal| && i <= |w| && w[..i] == literal[..i] && line[name + i] == At(w, i)
    {
      TextCharAt(line, name, w, i);
      if line[name + i] != literal[i] {
        return false;
      }
      TextCharAt(line, name, w, i + 1);
      i := i + 1;
    }
    TextCharAt(line, name, w, i);
    return line[name + i] == 0;
  }

  /** The bytes of a C string. */
  method ReadString(line: array<byte>, i: nat, ghost t: seq<byte>) returns (s: seq<byte>)
    requires TextAt(line, i, t)
    ensures s == t
  {
    s := [];
    TextCharAt(line, i, t, 0);
    while line[i + |s|] != 0
      invariant |s| <= |t| && s == t[..|s|] && (line[i + |s|] == 0 <==> |s| == |t|)
      decreases |t| - |s|
    {
      TextCharAt(line, i, t, |s|);
      s := s + [line[i + |s|]];
      TextCharAt(line, i, t, |s|);
    }
  }
}
