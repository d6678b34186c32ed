/**
 The JSON shell: frames between STX and ETX are read off a byte stream, split in place into a command
 and its argument, and dispatched.
 */
module JsonShell {
  import opened Bytes
  import opened CText

  const STX: byte := 0x02
  const ETX: byte := 0x03
  const BLANK: byte := 0x20
  const TAB: byte := 0x09
  const NO_POINTER: int := -1

  // ---------- frames ----------

  /** The channel: the bytes that arrive before it is reset, and how many of them have been read. */
  class ByteStream {
    const input: seq<byte>
    var pos: nat

    constructor (s: seq<byte>)
      ensures input == s && pos == 0
    {
      input, pos := s, 0;
    }

    /** chSequentialStreamRead of one character. */
    method Read() returns (n: nat, c: byte)
      requires pos <= |input|
      modifies this`pos
      ensures old(pos) == |input| ==> n == 0 && pos == old(pos)
      ensures old(pos) < |input| ==> n == 1 && c == input[old(pos)] && pos == old(pos) + 1
    {
      if pos == |input| {
        return 0, 0;
      }
      c := input[pos];
      pos := pos + 1;
      return 1, c;
    }

    ghost function Pending(): seq<byte>
      requires pos <= |input|
      reads this`pos
    {
      input[pos..]
    }
  }

  /** The index of the first ETX, or the length. */
  function FirstEtx(s: seq<byte>): (e: nat)
    ensures e <= |s| && (e < |s| ==> s[e] == ETX) && forall k :: 0 <= k < e ==> s[k] != ETX
  {
    if |s| == 0 || s[0] == ETX then 0 else 1 + FirstEtx(s[1..])
  }

  lemma FirstEtxIs(s: seq<byte>, e: nat)
    requires e <= |s| && (e < |s| ==> s[e] == ETX) && forall k :: 0 <= k < e ==> s[k] != ETX
    ensures FirstEtx(s) == e
  {
  }

  /** The index behind the last STX before i, or 0. */
  function RunStart(s: seq<byte>, i: nat): (a: nat)
    requires i <= |s|
    ensures a <= i && (a > 0 ==> s[a - 1] == STX) && forall k :: a <= k < i ==> s[k] != STX
  {
    if i == 0 then 0 else if s[i - 1] == STX then i else RunStart(s, i - 1)
  }

  /** No run of characters without an STX has size characters or more before the index e. */
  predicate RunsFit(s: seq<byte>, e: nat, size: nat)
    requires e <= |s|
  {
    forall i :: 0 <= i <= e ==> i - RunStart(s, i) < size
  }

  datatype Line = Line(payload: seq<byte>, consumed: nat) | NoLine

  /** What a reader with a buffer of the size gets from the bytes that are to come. */
  function LineOf(s: seq<byte>, size: nat): (l: Line)
    ensures l.Line? ==> 0 < l.consumed <= |s|
  {
    var e := FirstEtx(s);
    if e < |s| && RunsFit(s, e, size) then Line(s[RunStart(s, e)..e], e + 1) else NoLine
  }

  /**
   jsonShellGetLine: the bytes behind the last STX before the first ETX, terminated inside the buffer,
   exactly when there is an ETX and no run before it reaches the size of the buffer. Otherwise, at the
   end of the stream or behind the first run that is too long, it returns true, and that ends the shell.
   */
  method GetLine(chp: ByteStream, line: array<byte>) returns (reset: bool)
    requires line.Length > 0 && chp.pos <= |chp.input|
    modifies chp`pos, line
    ensures chp.pos <= |chp.input|
    ensures reset <==> LineOf(old(chp.Pending()), line.Length).NoLine?
    ensures !reset ==> var l := LineOf(old(chp.Pending()), line.Length);
      && |l.payload| < line.Length && line[..|l.payload|] == l.payload && line[|l.payload|] == 0
      && chp.pos == old(chp.pos) + l.consumed
    ensures reset ==> var s, i := old(chp.Pending()), chp.pos - old(chp.pos);
      && 0 <= i <= |s| && if RunsFit(s, i, line.Length) then i == |s| else i > 0 && RunsFit(s, i - 1, line.Length)
  {
    hide RunStart, RunsFit, FirstEtx, LineOf, Scanned;
    ghost var s, from := chp.Pending(), chp.pos;
    var p := 0;
    ScanStarts(s, line.Length);
    while true
      invariant from <= chp.pos <= |chp.input| && Scanned(s, chp.pos - from, line.Length)
      invariant chp.pos - from <= |s| && p == chp.pos - from - RunStart(s, chp.pos - from) < line.Length
      invariant line[..p] == s[RunStart(s, chp.pos - from)..chp.pos - from]
      decreases |chp.input| - chp.pos
    {
      ghost var i := chp.pos - from;
      var n, c := chp.Read();
      if n == 0 {
        ScanEnds(s, line.Length);
        return true;
      }
      ScanNext(s, i, line.Length);
      if c == STX {
        p := 0;
      } else if c == ETX {
        line[p] := 0;
        p := p + 1;
        ScanEtx(s, i, line.Length);
        return false;
      } else {
        line[p] := c;
        p := p + 1;
      }
      if p >= line.Length {
        ScanTooLong(s, i, line.Length);
        return true;
      }
    }
  }

  /** A reader with a buffer of the size has come to the index i: no ETX was before it, and no run too long. */
  predicate Scanned(s: seq<byte>, i: nat, size: nat) {
    i <= |s| && (forall k :: 0 <= k < i ==> s[k] != ETX) && RunsFit(s, i, size)
  }

  lemma ScanStarts(s: seq<byte>, size: nat)
    requires size > 0
    ensures Scanned(s, 0, size) && RunStart(s, 0) == 0
  {
  }

  lemma ScanNext(s: seq<byte>, i: nat, size: nat)
    requires Scanned(s, i, size) && i < |s|
    ensures RunStart(s, i + 1) == if s[i] == STX then i + 1 else RunStart(s, i)
    ensures s[i] != ETX && i + 1 - RunStart(s, i + 1) < size ==> Scanned(s, i + 1, size)
  {
    NextRun(s, i, size);
  }

  lemma ScanEnds(s: seq<byte>, size: nat)
    requires Scanned(s, |s|, size)
    ensures LineOf(s, size).NoLine? && RunsFit(s, |s|, size)
  {
    NoEtx(s, size);
  }

  lemma ScanEtx(s: seq<byte>, i: nat, size: nat)
    requires Scanned(s, i, size) && i < |s| && s[i] == ETX
    ensures LineOf(s, size) == Line(s[RunStart(s, i)..i], i + 1)
  {
    EtxAt(s, i, size);
  }

  lemma ScanTooLong(s: seq<byte>, i: nat, size: nat)
    requires Scanned(s, i, size) && i < |s| && s[i] != ETX && i + 1 - RunStart(s, i + 1) >= size
    ensures LineOf(s, size).NoLine? && RunsFit(s, i, size) && !RunsFit(s, i + 1, size)
  {
    TooLong(s, i + 1, size);
  }

  lemma NoRun(s: seq<byte>, size: nat)
    requires size > 0
    ensures RunsFit(s, 0, size) && RunStart(s, 0) == 0
  {
  }

  lemma NextRun(s: seq<byte>, i: nat, size: nat)
    requires i < |s| && RunsFit(s, i, size)
    ensures i - RunStart(s, i) < size
    ensures RunStart(s, i + 1) == if s[i] == STX then i + 1 else RunStart(s, i)
    ensures i + 1 - RunStart(s, i + 1) < size ==> RunsFit(s, i + 1, size)
  {
  }

  lemma NoEtx(s: seq<byte>, size: nat)
    requires forall k :: 0 <= k < |s| ==> s[k] != ETX
    ensures LineOf(s, size).NoLine?
  {
  }

  lemma EtxAt(s: seq<byte>, e: nat, size: nat)
    requires e < |s| && s[e] == ETX && (forall k :: 0 <= k < e ==> s[k] != ETX) && RunsFit(s, e, size)
    ensures LineOf(s, size) == Line(s[RunStart(s, e)..e], e + 1)
  {
    FirstEtxIs(s, e);
  }

  lemma TooLong(s: seq<byte>, i: nat, size: nat)
    requires i <= |s| && i - RunStart(s, i) >= size && forall k :: 0 <= k < i ==> s[k] != ETX
    ensures LineOf(s, size).NoLine? && !RunsFit(s, i, size)
  {
  }

  // ---------- frames one after another ----------

  /** Neither STX nor ETX occurs. */
  predicate Unframed(s: seq<byte>) {
    forall k :: 0 <= k < |s| ==> s[k] != STX && s[k] != ETX
  }

  function Frame(payload: seq<byte>): seq<byte> { [STX] + payload + [ETX] }

  /** Anything without an ETX whose runs fit: line noise, and frames that were cut off. */
  predicate Noise(s: seq<byte>, size: nat) {
    (forall k :: 0 <= k < |s| ==> s[k] != ETX) && RunsFit(s, |s|, size)
  }

  lemma {:induction false} RunStartPrefix(s: seq<byte>, t: seq<byte>, i: nat)
    requires i <= |s|
    ensures RunStart(s + t, i) == RunStart(s, i)
  {
    if i > 0 {
      assert (s + t)[i - 1] == s[i - 1];
      RunStartPrefix(s, t, i - 1);
    }
  }

  lemma {:induction false} RunStartUnframed(s: seq<byte>, a: nat, i: nat)
    requires 0 < a <= i <= |s| && s[a - 1] == STX && forall k :: a <= k < i ==> s[k] != STX
    ensures RunStart(s, i) == a
  {
    if i > a { RunStartUnframed(s, a, i - 1); }
  }

  /** A frame is read back whole after any noise, whatever follows it. */
  lemma FrameIsRead(noise: seq<byte>, payload: seq<byte>, rest: seq<byte>, size: nat)
    requires Noise(noise, size) && Unframed(payload) && |payload| < size
    ensures LineOf(noise + Frame(payload) + rest, size) == Line(payload, |noise| + |payload| + 2)
  {
    hide RunStart, FirstEtx;
    var s := noise + Frame(payload) + rest;
    var n, e := |noise|, |noise| + 1 + |payload|;
    assert s == noise + ([STX] + payload + [ETX] + rest);
    assert s[n] == STX && s[n + 1..e] == payload && s[e] == ETX;
    assert forall k :: n + 1 <= k < e ==> s[k] == payload[k - n - 1];
    assert forall k :: 0 <= k < n ==> s[k] == noise[k];
    FirstEtxIs(s, e);
    forall i | 0 <= i <= e
      ensures i - RunStart(s, i) < size && (i > n ==> RunStart(s, i) == n + 1)
    {
      if i <= n {
        RunStartPrefix(noise, [STX] + payload + [ETX] + rest, i);
      } else {
        RunStartUnframed(s, n + 1, i);
      }
    }
  }

  /** A stream of frames, each after some noise. */
  function Stream(chunks: seq<(seq<byte>, seq<byte>)>): seq<byte> {
    if |chunks| == 0 then [] else chunks[0].0 + Frame(chunks[0].1) + Stream(chunks[1..])
  }

  /** All the lines that a reader gets before it stops. */
  function Lines(s: seq<byte>, size: nat): seq<seq<byte>>
    decreases |s|
  {
    match LineOf(s, size)
    case NoLine => []
    case Line(payload, consumed) => [payload] + Lines(s[consumed..], size)
  }

  /** Frames are read back as their payloads, in order, after any noise before each of them. */
  lemma {:induction false} FramesAreRead(chunks: seq<(seq<byte>, seq<byte>)>, size: nat)
    requires forall i :: 0 <= i < |chunks| ==>
      Noise(chunks[i].0, size) && Unframed(chunks[i].1) && |chunks[i].1| < size
    ensures Lines(Stream(chunks), size) == seq(|chunks|, i requires 0 <= i < |chunks| => chunks[i].1)
  {
    hide LineOf, Noise;
    var s := Stream(chunks);
    if |chunks| == 0 {
      NoEtx(s, size);
    } else {
      var rest := Stream(chunks[1..]);
      FrameIsRead(chunks[0].0, chunks[0].1, rest, size);
      FramesAreRead(chunks[1..], size);
      assert s[|chunks[0].0| + |chunks[0].1| + 2..] == rest;
    }
  }

  // ---------- tokens ----------

  predicate IsDelim(b: byte) { b == BLANK || b == TAB }

  predicate Blank(s: seq<byte>) {
    forall k :: 0 <= k < |s| ==> IsDelim(s[k])
  }

  predicate IsWord(s: seq<byte>) {
    |s| > 0 && forall k :: 0 <= k < |s| ==> !IsDelim(s[k])
  }

  /** strspn: how many delimiters the string starts with. */
  function Span(t: seq<byte>): (k: nat)
    ensures k <= |t| && Blank(t[..k]) && (k < |t| ==> !IsDelim(t[k]))
  {
    if |t| > 0 && IsDelim(t[0]) then 1 + Span(t[1..]) else 0
  }

  /** strpbrk: where the first delimiter is, or the length. */
  function Break(t: seq<byte>): (m: nat)
    ensures m <= |t| && (m < |t| ==> IsDelim(t[m])) && forall k :: 0 <= k < m ==> !IsDelim(t[k])
  {
    if |t| > 0 && !IsDelim(t[0]) then 1 + Break(t[1..]) else 0
  }

  /** The first word of a string, and what follows the delimiter behind it. */
  function Token(t: seq<byte>): (w: Option<seq<byte>>)
    ensures w.Some? ==> IsWord(w.value)
  {
    var u := t[Span(t)..];
    if |u| == 0 then None else Some(u[..Break(u)])
  }

  function Remainder(t: seq<byte>): Option<seq<byte>> {
    var u := t[Span(t)..];
    if Break(u) < |u| then Some(u[Break(u) + 1..]) else None
  }

  /** The command and its argument. */
  function Split(t: seq<byte>): (Option<seq<byte>>, Option<seq<byte>>) {
    (Token(t), if Remainder(t).None? then None else Token(Remainder(t).value))
  }

  /** A pointer to the word, or null. */
  ghost predicate PointsAt(line: array<byte>, i: int, w: Option<seq<byte>>)
    reads line
  {
    if w.None? then i == NO_POINTER else 0 <= i && TextAt(line, i, w.value)
  }

  /**
   _strtok: a pointer to the first word of the string, which is terminated in place, and the pointer
   from which the next call goes on; nothing before the string changes.
   */
  method Strtok(line: array<byte>, str: int, saveptr: int, ghost t: Option<seq<byte>>) returns (token: int, save: int)
    requires PointsAt(line, if str != NO_POINTER then str else saveptr, t)
    modifies line
    ensures t.None? ==> token == NO_POINTER && save == NO_POINTER && line[..] == old(line[..])
    ensures t.Some? ==> PointsAt(line, token, Token(t.value)) && PointsAt(line, save, Remainder(t.value))
    ensures t.Some? ==> var from := if str != NO_POINTER then str else saveptr; line[..from] == old(line[..from])
    ensures token != NO_POINTER && save != NO_POINTER ==>
      t.Some? && Token(t.value).Some? && token + |Token(t.value).value| < save
  {
    hide TextAt, Span, Break;
    save := if str != NO_POINTER then str else saveptr;
    token := save;
    if token == NO_POINTER {
      return;
    }
    ghost var text := t.value;
    token := StrSpn(line, token, text);
    ghost var u := text[Span(text)..];
    Suffix(line, save, text, Span(text));
    save := StrPBrk(line, token, u);
    if save != NO_POINTER {
      Terminate(line, save, token, u);
      save := save + 1;
    } else {
      assert u[..Break(u)] == u;
    }
    TextCharAt(line, token, u[..Break(u)], 0);
    if line[token] == 0 {
      token := NO_POINTER;
    }
  }

  lemma Suffix(line: array<byte>, i: int, t: seq<byte>, k: nat)
    requires TextAt(line, i, t) && k <= |t|
    ensures TextAt(line, i + k, t[k..])
  {
    assert line[i + k..i + |t|] == line[i..i + |t|][k..];
  }

  /** A terminator over one character makes two strings of one. */
  method Terminate(line: array<byte>, at: int, i: nat, ghost t: seq<byte>)
    requires TextAt(line, i, t) && i <= at < i + |t|
    modifies line
    ensures TextAt(line, i, t[..at - i]) && TextAt(line, at + 1, t[at - i + 1..]) && line[..i] == old(line[..i])
  {
    line[at] := 0;
    assert line[i..at] == t[..at - i] && line[at + 1..i + |t|] == t[at - i + 1..];
  }

  method StrSpn(line: array<byte>, start: nat, ghost t: seq<byte>) returns (i: nat)
    requires TextAt(line, start, t)
    ensures i == start + Span(t) && TextAt(line, start, t)
  {
    i := start;
    assert t[0..] == t;
    TextCharAt(line, start, t, 0);
    while line[i] == BLANK || line[i] == TAB
      invariant start <= i <= start + |t| && line[i] == At(t, i - start)
      invariant i - start + Span(t[i - start..]) == Span(t) && TextAt(line, start, t)
      decreases start + |t| - i
    {
      assert t[i - start..][1..] == t[i - start + 1..];
      TextCharAt(line, start, t, i - start + 1);
      i := i + 1;
    }
  }

  method StrPBrk(line: array<byte>, start: nat, ghost t: seq<byte>) returns (i: int)
    requires TextAt(line, start, t)
    ensures i == (if Break(t) < |t| then start + Break(t) else NO_POINTER) && TextAt(line, start, t)
  {
    i := start;
    assert t[0..] == t;
    TextCharAt(line, start, t, 0);
    while line[i] != 0
      invariant start <= i <= start + |t| && line[i] == At(t, i - start) && (line[i] == 0 <==> i == start + |t|)
      invariant i - start + Break(t[i - start..]) == Break(t) && TextAt(line, start, t)
      decreases start + |t| - i
    {
      if line[i] == BLANK || line[i] == TAB {
        return;
      }
      assert t[i - start..][1..] == t[i - start + 1..];
      TextCharAt(line, start, t, i - start + 1);
      i := i + 1;
    }
    return NO_POINTER;
  }

  // ---------- dispatch ----------

  const GET: seq<byte> := [0x47, 0x45, 0x54]
  const SET: seq<byte> := [0x53, 0x45, 0x54]
  const SAVE: seq<byte> := [0x53, 0x41, 0x56, 0x45]
  const CONSOLE: seq<byte> := [0x43, 0x4F, 0x4E, 0x53, 0x4F, 0x4C, 0x45]
  const COMMANDS: seq<seq<byte>> := [GET, SET, SAVE, CONSOLE]

  /** A frame as the shell acts on it: a command of the table with its argument, or an error reply. */
  datatype Call = Call(command: nat, argument: Option<seq<byte>>) | NotFound

  /** The call that a word and an argument make. */
  function CallOf(w: seq<byte>, argument: Option<seq<byte>>): (c: Call)
    ensures c.Call? ==> c.command < |COMMANDS| && COMMANDS[c.command] == w && c.argument == argument
    ensures c.NotFound? ==> w !in COMMANDS
  {
    if w == GET then Call(0, argument) else if w == SET then Call(1, argument)
    else if w == SAVE then Call(2, argument) else if w == CONSOLE then Call(3, argument) else NotFound
  }

  /** jcmdexec, up to the call of the command: its index in the table, or none. */
  method JCmdExec(line: array<byte>, name: nat, ghost w: seq<byte>) returns (command: Option<nat>)
    requires TextAt(line, name, w)
    ensures command.None? <==> CallOf(w, None).NotFound?
    ensures command.Some? ==> CallOf(w, None) == Call(command.value, None)
  {
    hide TextAt;
    var i := 0;
    while i < |COMMANDS|
      invariant i <= |COMMANDS| && forall k :: 0 <= k < i ==> w != COMMANDS[k]
    {
      var same := StrEqual(line, name, COMMANDS[i], w);
      if same {
        return Some(i);
      }
      i := i + 1;
    }
    return None;
  }

  /** Splitting a line in place into the command and its argument. */
  method SplitLine(line: array<byte>, ghost t: seq<byte>) returns (cmd: int, jstring: int)
    requires TextAt(line, 0, t)
    modifies line
    ensures PointsAt(line, cmd, Split(t).0) && PointsAt(line, jstring, Split(t).1)
  {
    var tokp;
    hide Token, Remainder;
    cmd, tokp := Strtok(line, 0, NO_POINTER, Some(t));
    ghost var was, after := line[..], tokp;
    jstring, tokp := Strtok(line, NO_POINTER, tokp, Remainder(t));
    if cmd != NO_POINTER && after != NO_POINTER {
      ghost var n := cmd + |Token(t).value|;
      assert line[cmd..n + 1] == line[..after][cmd..n + 1] == was[..after][cmd..n + 1];
      assert line[n] == line[cmd..n + 1][n - cmd] && line[cmd..n] == line[cmd..n + 1][..n - cmd];
    }
  }

  /**
   What the shell does with a stream: the calls it makes, in order, and whether it came to a line
   without a word in it, whose command is a null pointer that it hands to strcmp.
   */
  function Session(s: seq<byte>, size: nat): (seq<Call>, bool)
    decreases |s|
  {
    match LineOf(s, size)
    case NoLine => ([], false)
    case Line(payload, consumed) =>
      var (word, argument) := Split(UpToNul(payload));
      if word.None? then ([], true)
      else
        var (calls, fault) := Session(s[consumed..], size);
        ([CallOf(word.value, argument)] + calls, fault)
  }

  /** json_thread: lines are read, split and dispatched until the channel is reset. */
  method JsonThread(chp: ByteStream, line: array<byte>) returns (calls: seq<Call>, fault: bool)
    requires line.Length > 0 && chp.pos <= |chp.input|
    modifies chp`pos, line
    ensures (calls, fault) == Session(old(chp.Pending()), line.Length)
  {
    hide LineOf, Split, CallOf, TextAt, UpToNul;
    calls, fault := [], false;
    assert [] + Session(chp.Pending(), line.Length).0 == Session(chp.Pending(), line.Length).0;
    while true
      invariant chp.pos <= |chp.input|
      invariant var (more, ends) := Session(chp.Pending(), line.Length);
        Session(old(chp.Pending()), line.Length) == (calls + more, ends)
      decreases |chp.input| - chp.pos
    {
      ghost var s := chp.Pending();
      var reset := GetLine(chp, line);
      if reset {
        assert calls + [] == calls;
        return;
      }
      ghost var l := LineOf(s, line.Length);
      ghost var text := UpToNul(l.payload);
      assert chp.Pending() == s[l.consumed..];
      LineHolds(line, l.payload);
      var cmd, jstring := SplitLine(line, text);
      if cmd == NO_POINTER {
        assert calls + [] == calls;
        fault := true;
        return;
      }
      OneMore(calls, CallOf(Split(text).0.value, Split(text).1), Session(chp.Pending(), line.Length).0);
      var command := JCmdExec(line, cmd, Split(text).0.value);
      SameCommand(Split(text).0.value, Split(text).1);
      if command.Some? {
        var argument := None;
        if jstring != NO_POINTER {
          var a := ReadString(line, jstring, Split(text).1.value);
          argument := Some(a);
        }
        calls := calls + [Call(command.value, argument)];
      } else {
        calls := calls + [NotFound];
      }
    }
  }

  lemma OneMore(calls: seq<Call>, c: Call, more: seq<Call>)
    ensures calls + ([c] + more) == (calls + [c]) + more
  {
  }

  lemma LineHolds(line: array<byte>, payload: seq<byte>)
    requires |payload| < line.Length && line[..|payload|] == payload && line[|payload|] == 0
    ensures TextAt(line, 0, UpToNul(payload))
  {
    var t := UpToNul(payload);
    assert line[0..0 + |t|] == line[..|payload|][..|t|];
    assert |t| < |payload| ==> line[|t|] == line[..|payload|][|t|];
  }

  lemma SameCommand(w: seq<byte>, argument: Option<seq<byte>>)
    ensures CallOf(w, argument) == match CallOf(w, None) case NotFound => NotFound case Call(c, _) => Call(c, argument)
  {
  }

  // ---------- commands on the wire ----------

  lemma {:induction false} SpanIs(t: seq<byte>, k: nat)
    requires k <= |t| && Blank(t[..k]) && (k < |t| ==> !IsDelim(t[k]))
    ensures Span(t) == k
  {
    if k > 0 {
      assert t[..k][0] == t[0] && t[1..][..k - 1] == t[..k][1..];
      SpanIs(t[1..], k - 1);
    }
  }

  lemma BreakIs(t: seq<byte>, m: nat)
    requires m <= |t| && (m < |t| ==> IsDelim(t[m])) && forall k :: 0 <= k < m ==> !IsDelim(t[k])
    ensures Break(t) == m
  {
  }

  /** A word between blanks is the token; what follows the blank behind it is left. */
  lemma WordIsToken(blanks: seq<byte>, w: seq<byte>, rest: seq<byte>)
    requires Blank(blanks) && IsWord(w) && (|rest| > 0 ==> IsDelim(rest[0]))
    ensures Token(blanks + w + rest) == Some(w)
    ensures Remainder(blanks + w + rest) == if |rest| > 0 then Some(rest[1..]) else None
  {
    hide Span, Break;
    var t := blanks + w + rest;
    assert t[..|blanks|] == blanks && t[|blanks|..] == w + rest && t[|blanks|] == w[0];
    SpanIs(t, |blanks|);
    var u := w + rest;
    assert forall k :: 0 <= k < |w| ==> u[k] == w[k];
    assert |rest| > 0 ==> u[|w|] == rest[0];
    BreakIs(u, |w|);
    assert u[..|w|] == w;
    assert |rest| > 0 ==> u[|w| + 1..] == rest[1..];
  }

  /**
   A line with two words or more is the command and the argument; whatever stands behind the second word is
   dropped, and so is the rest of an argument with a blank in it.
   */
  lemma TwoWords(a: seq<byte>, w: seq<byte>, b: seq<byte>, argument: seq<byte>, rest: seq<byte>)
    requires Blank(a) && IsWord(w) && Blank(b) && |b| > 0 && IsWord(argument) && (|rest| > 0 ==> IsDelim(rest[0]))
    ensures Split(a + w + (b + argument + rest)) == (Some(w), Some(argument))
  {
    hide Token, Remainder;
    var tail := b + argument + rest;
    assert tail[0] == b[0] && tail[1..] == b[1..] + argument + rest;
    WordIsToken(a, w, tail);
    WordIsToken(b[1..], argument, rest);
  }

  /** A line with one word is a command without an argument. */
  lemma OneWord(a: seq<byte>, w: seq<byte>, b: seq<byte>)
    requires Blank(a) && IsWord(w) && Blank(b)
    ensures Split(a + w + b) == (Some(w), None)
  {
    hide Token, Remainder;
    WordIsToken(a, w, b);
    if b != [] { BlankLine(b[1..]); }
  }

  /** A line has no word exactly when it is blank: then, and only then, the shell faults. */
  lemma BlankLine(t: seq<byte>)
    ensures Token(t).None? <==> Blank(t)
  {
    hide Span;
    var k := Span(t);
    if k < |t| {
      assert !IsDelim(t[k]);
    } else {
      assert t[..k] == t;
    }
  }

  /**
   The shell faults on a stream if and only if one of its lines is blank, where a line ends at the first zero
   byte in it.
   */
  lemma {:induction false} FaultsAtBlankLine(s: seq<byte>, size: nat)
    ensures Session(s, size).1 <==> SomeBlank(Lines(s, size))
    decreases |s|
  {
    hide LineOf, Token, Remainder, CallOf, UpToNul, Blank;
    var l := LineOf(s, size);
    if l.Line? {
      BlankLine(UpToNul(l.payload));
      FaultsAtBlankLine(s[l.consumed..], size);
      SomeBlankCons(l.payload, Lines(s[l.consumed..], size));
    }
  }

  /** How many lines come before the first blank one. */
  function BeforeBlank(lines: seq<seq<byte>>): (n: nat)
    ensures n <= |lines| && (n < |lines| ==> Blank(UpToNul(lines[n])))
    ensures forall k :: 0 <= k < n ==> !Blank(UpToNul(lines[k]))
  {
    if |lines| == 0 || Blank(UpToNul(lines[0])) then 0 else 1 + BeforeBlank(lines[1..])
  }

  predicate IsCallOf(c: Call, line: seq<byte>) {
    var (word, argument) := Split(UpToNul(line));
    word.Some? && c == CallOf(word.value, argument)
  }

  /** The calls of a stream are those of its lines, one for each, in order, up to the first blank one. */
  lemma {:induction false} OneCallForEachLine(s: seq<byte>, size: nat)
    ensures |Session(s, size).0| == BeforeBlank(Lines(s, size))
    ensures forall k :: 0 <= k < |Session(s, size).0| ==> IsCallOf(Session(s, size).0[k], Lines(s, size)[k])
    decreases |s|
  {
    hide LineOf, Token, Remainder, CallOf, UpToNul, Blank;
    var l := LineOf(s, size);
    if l.Line? {
      BlankLine(UpToNul(l.payload));
      OneCallForEachLine(s[l.consumed..], size);
      var later := Lines(s[l.consumed..], size);
      assert ([l.payload] + later)[1..] == later;
    }
  }

  predicate SomeBlank(lines: seq<seq<byte>>) {
    exists k :: 0 <= k < |lines| && Blank(UpToNul(lines[k]))
  }

  lemma SomeBlankCons(line: seq<byte>, later: seq<seq<byte>>)
    ensures SomeBlank([line] + later) <==> Blank(UpToNul(line)) || SomeBlank(later)
  {
    hide Blank, UpToNul;
    var lines := [line] + later;
    assert lines[0] == line;
    if k :| 0 <= k < |later| && Blank(UpToNul(later[k])) {
      assert lines[k + 1] == later[k];
    }
  }

  /** An empty frame is such a stream. */
  lemma EmptyFrameFaults(size: nat)
    requires size > 0
    ensures Session([STX, ETX], size) == ([], true)
  {
    hide LineOf, Token, Remainder, CallOf;
    NoRun([], size);
    assert [] + Frame([]) + [] == [STX, ETX];
    FrameIsRead([], [], [], size);
    BlankLine(UpToNul([]));
  }

  /** A command and one argument without blanks, as a client writes them. */
  function Request(word: seq<byte>, argument: seq<byte>): seq<byte> { word + [BLANK] + argument }

  lemma RequestSplits(word: seq<byte>, argument: seq<byte>)
    requires IsWord(word) && IsWord(argument)
    ensures Split(Request(word, argument)) == (Some(word), Some(argument))
  {
    hide Token, Remainder;
    assert Request(word, argument) == [] + word + ([BLANK] + argument);
    WordIsToken([], word, [BLANK] + argument);
    assert ([BLANK] + argument)[1..] == argument && argument == [] + argument + [];
    WordIsToken([], argument, []);
  }

  /**
   Framed requests, after any noise before each, are dispatched in order with their arguments, and without a fault.
   */
  lemma {:induction false} RequestsAreDispatched(noise: seq<seq<byte>>, words: seq<seq<byte>>,
                                                 arguments: seq<seq<byte>>, size: nat)
    requires |noise| == |words| == |arguments|
    requires forall i :: 0 <= i < |words| ==> Noise(noise[i], size) && IsWord(words[i]) && IsWord(arguments[i])
    requires forall i :: 0 <= i < |words| ==>
      var r := Request(words[i], arguments[i]); Unframed(r) && NulFree(r) && |r| < size
    ensures Session(RequestStream(noise, words, arguments), size) == (CallsOf(words, arguments), false)
  {
    hide LineOf, Noise, Split, CallOf, UpToNul;
    var s := RequestStream(noise, words, arguments);
    if |words| == 0 {
      NoEtx(s, size);
    } else {
      var r := Request(words[0], arguments[0]);
      var rest := RequestStream(noise[1..], words[1..], arguments[1..]);
      assert Unframed(r) && NulFree(r) && |r| < size;
      FrameIsRead(noise[0], r, rest, size);
      RequestSplits(words[0], arguments[0]);
      RequestsAreDispatched(noise[1..], words[1..], arguments[1..], size);
      assert s[|noise[0]| + |r| + 2..] == rest;
    }
  }

  function CallsOf(words: seq<seq<byte>>, arguments: seq<seq<byte>>): (cs: seq<Call>)
    requires |words| == |arguments|
    ensures |cs| == |words| && forall i :: 0 <= i < |words| ==> cs[i] == CallOf(words[i], Some(arguments[i]))
  {
    if |words| == 0 then [] else [CallOf(words[0], Some(arguments[0]))] + CallsOf(words[1..], arguments[1..])
  }

  function RequestStream(noise: seq<seq<byte>>, words: seq<seq<byte>>, arguments: seq<seq<byte>>): seq<byte>
    requires |noise| == |words| == |arguments|
  {
    if |words| == 0 then []
    else noise[0] + Frame(Request(words[0], arguments[0])) + RequestStream(noise[1..], words[1..], arguments[1..])
  }
}
