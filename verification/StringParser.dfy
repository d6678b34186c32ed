/**
 parse_string: an escaped string is measured, a block is allocated, and the string is decoded into it.
 */
module StringParser {
  import opened Bytes
  import opened Unicode
  import opened Json
  import opened JsonParse
  import opened Heap
  import opened Tree

  lemma HexStep(ret: nat, d: nat)
    requires d < 16
    ensures Or(ShiftLeft(ret, 4), d) == ret * 16 + d
  {
    ShiftLeftIsTimes(ret, 4);
    assert Pow2(4) == 16;
    OrDisjoint(d, 4, ret);
    OrCommutes(ShiftLeft(ret, 4), d);
  }

  lemma HexSnoc(h: seq<byte>, b: byte)
    ensures HexValue(h + [b]) ==
      if HexDigit(b).None? then HexValue(h) else HexValue(h) * 16 + HexDigit(b).value
  {
    assert (h + [b])[..|h + [b]| - 1] == h;
  }

  /** cJSON_GetUnicode */
  method GetUnicode(text: array<byte>, ghost s: seq<byte>, ptr: nat) returns (ret: nat)
    requires CString(text, s) && ptr + 4 <= |s|
    ensures ret == HexValue(s[ptr..ptr + 4])
  {
    ret := 0;
    var i := 0;
    while i < 4
      invariant i <= 4 && ret == HexValue(s[ptr..ptr + i])
    {
      CharAt(text, s, ptr + i);
      var c := text[ptr + i];
      assert s[ptr..ptr + i + 1] == s[ptr..ptr + i] + [c];
      HexSnoc(s[ptr..ptr + i], c);
      if '0' as int <= c <= '9' as int {
        HexStep(ret, c - 0x30);
        ret := Or(ShiftLeft(ret, 4), c - 0x30);
      } else if 'A' as int <= c <= 'F' as int {
        HexStep(ret, c - 0x41 + 10);
        ret := Or(ShiftLeft(ret, 4), c - 0x41 + 10);
      } else if 'a' as int <= c <= 'f' as int {
        HexStep(ret, c - 0x61 + 10);
        ret := Or(ShiftLeft(ret, 4), c - 0x61 + 10);
      }
      i := i + 1;
    }
  }

  /** The bytes of a code point in terms of what the transcoder shifts it to. */
  lemma Utf8Bytes(uc: nat, len: nat, u1: nat, u2: nat)
    requires IsScalar(uc) && len == Utf8Length(uc) && u1 == uc / 0x40 && u2 == u1 / 0x40
    ensures |Utf8(uc)| == len
    ensures len == 1 ==> Utf8(uc)[0] == LeadByte(uc, FIRST_BYTE_MARK[len])
    ensures len >= 2 ==> Utf8(uc)[len - 1] == ContinuationByte(uc)
    ensures len == 2 ==> Utf8(uc)[0] == LeadByte(u1, FIRST_BYTE_MARK[len])
    ensures len >= 3 ==> Utf8(uc)[len - 2] == ContinuationByte(u1)
    ensures len == 3 ==> Utf8(uc)[0] == LeadByte(u2, FIRST_BYTE_MARK[len])
    ensures len == 4 ==> Utf8(uc)[1] == ContinuationByte(u2)
    ensures len == 4 ==> Utf8(uc)[0] == LeadByte(u2 / 0x40, FIRST_BYTE_MARK[len])
  {
    hide ContinuationByte, LeadByte;
    assert u2 == uc / 0x1000 && u2 / 0x40 == uc / 0x40000;
    ContinuationByteBits(uc);
    ContinuationByteBits(u1);
    ContinuationByteBits(u2);
    LeadByteBits(uc);
    LeadByteBits(u1);
    LeadByteBits(u2);
    LeadByteBits(u2 / 0x40);
  }

  /** The transcoder: space for the code point is set aside and filled from its last byte to its first. */
  method PutUtf8(out: array<byte>, ptr2: nat, uc: nat) returns (end: nat)
    requires IsScalar(uc) && ptr2 + |Utf8(uc)| <= out.Length
    modifies out
    ensures end == ptr2 + |Utf8(uc)| && out[ptr2..end] == Utf8(uc)
    ensures out[..ptr2] == old(out[..ptr2]) && out[end..] == old(out[end..])
  {
    hide Utf8, ContinuationByte, LeadByte;
    var len := 4;
    if uc < 0x80 { len := 1; } else if uc < 0x800 { len := 2; } else if uc < 0x10000 { len := 3; }
    Utf8Bytes(uc, len, uc / 0x40, uc / 0x40 / 0x40);
    var p, u := ptr2 + len, uc;
    if len >= 4 {
      p := p - 1;
      out[p] := ContinuationByte(u);
      u := u / 0x40;
    }
    if len >= 3 {
      p := p - 1;
      out[p] := ContinuationByte(u);
      u := u / 0x40;
    }
    if len >= 2 {
      p := p - 1;
      out[p] := ContinuationByte(u);
      u := u / 0x40;
    }
    p := p - 1;
    out[p] := LeadByte(u, FIRST_BYTE_MARK[len]);
    end := p + len;
  }

  /** The first pass: where the body ends and how many characters it has, an escape counting once. */
  method MeasureBody(text: array<byte>, ghost s: seq<byte>, start: nat) returns (len: nat)
    requires CString(text, s) && start <= |s| && FirstPass(s, start).Some?
    ensures Some(len) == FirstPass(s, start)
  {
    var ptr := start;
    len := 0;
    CharAt(text, s, ptr);
    while text[ptr] != QUOTE && text[ptr] != 0
      invariant ptr <= |s| && text[ptr] == At(s, ptr) && (text[ptr] == 0 <==> ptr == |s|)
      invariant FirstPass(s, ptr).Some? && Some(len + FirstPass(s, ptr).value) == FirstPass(s, start)
      decreases |s| - ptr
    {
      len := len + 1;
      if text[ptr] == BACKSLASH {
        ptr := ptr + 1;
      }
      ptr := ptr + 1;
      CharAt(text, s, ptr);
    }
  }

  /** The escape whose backslash is at ptr - 1 is decoded to ptr2; next is the index behind it. */
  method CopyEscape(text: array<byte>, ghost s: seq<byte>, ptr: nat, out: array<byte>, ptr2: nat)
    returns (next: nat, end: nat)
    requires CString(text, s) && 0 < ptr <= |s| && s[ptr - 1] == BACKSLASH && DecodeStep(s, ptr - 1).Some?
    requires ptr2 + |DecodeStep(s, ptr - 1).value.1| <= out.Length && out != text
    modifies out
    ensures next == DecodeStep(s, ptr - 1).value.0
    ensures end == ptr2 + |DecodeStep(s, ptr - 1).value.1| && out[ptr2..end] == DecodeStep(s, ptr - 1).value.1
    ensures out[..ptr2] == old(out[..ptr2])
  {
    CharAt(text, s, ptr);
    var c := text[ptr];
    next, end := ptr + 1, ptr2;
    if c == 'u' as int {
      var uc := GetUnicode(text, s, ptr + 1);
      next := ptr + 5;
      if IsLow(uc) || uc == 0 {
        return;
      }
      if IsHigh(uc) {
        CharAt(text, s, next);
        if text[next] != BACKSLASH {
          return;
        }
        CharAt(text, s, next + 1);
        if text[next + 1] != LETTER_U {
          return;
        }
        var uc2 := GetUnicode(text, s, next + 2);
        next := next + 6;
        if uc2 < 0xDC00 || uc2 > 0xDFFF {
          return;
        }
        CombineInvertsUtf16(uc, uc2);
        uc := 0x10000 + Or(ShiftLeft(And(uc, 0x3FF), 10), And(uc2, 0x3FF));
      }
      end := PutUtf8(out, ptr2, uc);
    } else {
      if c == 'b' as int { out[ptr2] := 0x08; }
      else if c == 'f' as int { out[ptr2] := 0x0C; }
      else if c == 'n' as int { out[ptr2] := 0x0A; }
      else if c == 'r' as int { out[ptr2] := 0x0D; }
      else if c == 't' as int { out[ptr2] := 0x09; }
      else { out[ptr2] := c; }
      end := ptr2 + 1;
    }
  }

  /** The second pass: the body is decoded into a block that is large enough for it. */
  method DecodeInto(text: array<byte>, ghost s: seq<byte>, start: nat, out: array<byte>) returns (ptr: nat)
    requires CString(text, s) && start <= |s| && SecondPass(s, start).Some?
    requires |SecondPass(s, start).value.1| < out.Length && out != text
    modifies out
    ensures ptr == SecondPass(s, start).value.0
    ensures CString(out, SecondPass(s, start).value.1)
  {
    hide SecondPass, DecodeStep;
    ghost var (end, all) := SecondPass(s, start).value;
    ptr := start;
    var ptr2 := 0;
    CharAt(text, s, ptr);
    DecodeNulFree(s, start);
    while text[ptr] != QUOTE && text[ptr] != 0
      invariant start <= ptr <= |s| && text[ptr] == At(s, ptr) && (text[ptr] == 0 <==> ptr == |s|)
      invariant SecondPass(s, ptr).Some? && SecondPass(s, ptr).value.0 == end
      invariant ptr2 < out.Length && out[..ptr2] + SecondPass(s, ptr).value.1 == all
      decreases |s| - ptr
      modifies out
    {
      ghost var here, done := ptr, out[..ptr2];
      PassGoesOn(s, ptr, done, all);
      if text[ptr] != BACKSLASH {
        PlainStep(s, ptr);
        out[ptr2] := text[ptr];
        ptr2 := ptr2 + 1;
        ptr := ptr + 1;
      } else {
        ptr, ptr2 := CopyEscape(text, s, ptr + 1, out, ptr2);
      }
      assert out[..ptr2] == done + DecodeStep(s, here).value.1;
      CharAt(text, s, ptr);
    }
    BodyOver(s, ptr);
    out[ptr2] := 0;
  }

  lemma PlainStep(s: seq<byte>, i: nat)
    requires i < |s| && s[i] != QUOTE && s[i] != BACKSLASH
    ensures DecodeStep(s, i) == Some((i + 1, [s[i]]))
  {
  }

  lemma BodyOver(s: seq<byte>, i: nat)
    requires i <= |s| && (i == |s| || s[i] == QUOTE)
    ensures SecondPass(s, i) == Some((i, []))
  {
  }

  /** What is left of the pass behind a character or an escape. */
  lemma PassGoesOn(s: seq<byte>, here: nat, done: seq<byte>, all: seq<byte>)
    requires here < |s| && s[here] != QUOTE && SecondPass(s, here).Some? && done + SecondPass(s, here).value.1 == all
    ensures DecodeStep(s, here).Some?
    ensures var (next, out) := DecodeStep(s, here).value;
      && SecondPass(s, next).Some? && SecondPass(s, next).value.0 == SecondPass(s, here).value.0
      && (done + out) + SecondPass(s, next).value.1 == all && |done| + |out| <= |all|
  {
    hide DecodeStep;
    var (next, out) := DecodeStep(s, here).value;
    assert (done + out) + SecondPass(s, next).value.1 == done + (out + SecondPass(s, next).value.1);
  }

  /**
   parse_string: on success the item owns a fresh block with the decoded string; on failure nothing
   has changed but the error pointer, or an allocation failed.
   */
  method ParseStringItem(lib: Library, text: array<byte>, ghost s: seq<byte>, item: Node, str: nat)
    returns (end: int, ghost result: Option<Str>)
    requires CString(text, s) && str <= |s| && !ParseString(s, str).OutOfBounds?
    requires item.valuestring == null
    modifies lib`ep, lib`live, lib`failures, item`valuestring, item`typ
    ensures end == NULL ==> result == None && lib.live == old(lib.live)
    ensures end == NULL ==> item.valuestring == null && item.typ == old(item.typ)
    ensures end == NULL && lib.failures == old(lib.failures) ==> ParseString(s, str) == Fail(str) && lib.ep == Some(str)
    ensures end != NULL ==> result.Some? && item.valuestring == result.value.block && fresh(result.value.block)
    ensures end != NULL ==> CString(result.value.block, result.value.text) && item.typ == TYPE_STRING
    ensures end != NULL ==> end >= 0 && ParseString(s, str) == Done(end, result.value.text)
    ensures end != NULL ==> lib.live == old(lib.live) + {result.value.block} && lib.failures == old(lib.failures)
    ensures lib.failures >= old(lib.failures)
    ensures end != NULL || lib.failures > old(lib.failures) ==> lib.ep == old(lib.ep)
  {
    hide FirstPass, SecondPass;
    result := None;
    CharAt(text, s, str);
    if text[str] != QUOTE {
      lib.ep := Some(str);
      return NULL, None;
    }
    var len := MeasureBody(text, s, str + 1);
    var out := lib.Malloc(len + 1);
    if out == null {
      return NULL, None;
    }
    var ptr := DecodeInto(text, s, str + 1, out);
    CharAt(text, s, ptr);
    if text[ptr] == QUOTE {
      ptr := ptr + 1;
    }
    item.valuestring := out;
    item.typ := TYPE_STRING;
    end := ptr;
    result := Some(Str(out, SecondPass(s, str + 1).value.1));
  }
}
