/**
 The database over the wire: what one device sends for GET Config, framed as a SET and received by
 another.
 */
module Wire {
  import opened Bytes
  import opened Json
  import opened JsonParse
  import opened JsonPrint
  import opened PrintExact
  import opened JsonShell
  import opened Storage
  import opened Config
  import opened Settings

  // ---------- the text of the items ----------

  /** The unformatted text of the items. */
  function ConfigText(w: nat, held: Held, ints: seq<int32>): seq<byte>
    requires NAMED <= |ints|
  {
    Print(w, held, ConfigValue(ints))
  }

  /** The text when the fresh blocks were full of a letter. */
  function StaleConfig(w: nat, ints: seq<int32>): seq<byte>
    requires NAMED <= |ints|
  {
    StaleText(w, ConfigValue(ints))
  }

  lemma StaleConfigIs(w: nat, ints: seq<int32>)
    requires NAMED <= |ints|
    ensures StaleConfig(w, ints) == ConfigText(w, Stale(ConfigValue(ints)), ints)
  {
  }

  /** Every named item is rendered in fewer than W characters. */
  predicate ItemsFit(w: nat, ints: seq<int32>)
    requires NAMED <= |ints|
  {
    forall i :: 0 <= i < NAMED ==> |DecimalText(ints[i])| < w
  }

  /** A member with a name of letters and digits and an int for its value. */
  predicate IsItem(m: Member) {
    && (forall k :: 0 <= k < |m.name| ==> IsPlainByte(m.name[k]))
    && m.value.Number? && IsInt(m.value.number)
  }

  predicate IsPlainByte(b: byte) {
    0x30 <= b <= 0x39 || 0x41 <= b <= 0x5A || 0x61 <= b <= 0x7A
  }

  lemma ConfigIsItems(ints: seq<int32>, w: nat)
    requires NAMED <= |ints|
    ensures forall k :: 0 <= k < NAMED ==> IsItem(ConfigMembers(ints, NAMED)[k])
    ensures forall k :: 0 <= k < NAMED ==>
      (MemberFits(w, ConfigMembers(ints, NAMED)[k]) <==> |DecimalText(ints[k])| < w)
    ensures Printable(ConfigValue(ints)) && (Fits(w, ConfigValue(ints)) <==> ItemsFit(w, ints))
  {
    hide NameString, ConfigMembers, DecimalText;
    var ms := ConfigMembers(ints, NAMED);
    forall k | 0 <= k < NAMED
      ensures IsItem(ms[k]) && PrintableMember(ms[k]) && (MemberFits(w, ms[k]) <==> |DecimalText(ints[k])| < w)
    {
      NameIsPlain(k);
      assert ms[k] == Member(Name(k), Number(ints[k] as real));
    }
  }

  /** Visible characters: no blank, no control character and no terminator. */
  predicate Visible(s: seq<byte>) {
    forall k :: 0 <= k < |s| ==> s[k] > 32
  }

  lemma {:induction false} PlainNameIsPrinted(w: nat, held: seq<byte>, i: nat, name: seq<byte>)
    requires forall k :: 0 <= k < |name| ==> IsPlainByte(name[k])
    ensures PrintChars(w, held, i, name) == name && StringFits(w, name)
    decreases name
  {
    if |name| > 0 {
      PlainNameIsPrinted(w, held, i + CharRoom(name[0]), name[1..]);
      assert name == [name[0]] + name[1..];
    }
  }

  /** A name of letters and digits is printed between quotation marks, whatever its block held. */
  lemma PlainNameIsQuoted(w: nat, held: seq<byte>, name: seq<byte>)
    requires forall k :: 0 <= k < |name| ==> IsPlainByte(name[k])
    ensures PrintString(w, held, name) == [QUOTE] + (name + [QUOTE]) && StringFits(w, name) && NulFree(name)
  {
    PlainNameIsPrinted(w, held, 1, name);
  }

  lemma {:induction false} ItemsAreVisible(w: nat, ms: seq<Member>)
    requires |ms| > 0 && forall k :: 0 <= k < |ms| ==> IsItem(ms[k])
    ensures Visible(StaleMembers(w, ms))
  {
    hide StaleMember, StaleMembers;
    StaleMembersStep(w, ms);
    ItemIsVisible(w, ms[0]);
    if |ms| > 1 {
      ItemsAreVisible(w, ms[1..]);
    }
  }

  lemma ItemIsVisible(w: nat, m: Member)
    requires IsItem(m)
    ensures Visible(StaleMember(w, m))
  {
    hide DecimalText, PrintString;
    PlainNameIsQuoted(w, StaleBytes(StringBlock(m.name)), m.name);
    DecimalIsVisible(m.value.number.Floor);
    StaleNumberIsVisible(w, m.value.number.Floor);
    assert Visible(StaleString(w, m.name));
  }

  lemma StaleNumberIsVisible(w: nat, n: int)
    requires Visible(DecimalText(n))
    ensures Visible(PrintNumber(w, STALE_NUMBER, n))
  {
    hide DecimalText;
    var b := Behind(STALE_NUMBER, w);
    assert forall k :: 0 <= k < |UpToNul(b)| ==> UpToNul(b)[k] == b[k] == STALE_NUMBER[w + k];
  }

  lemma DecimalIsVisible(n: int)
    ensures Visible(DecimalText(n))
  {
  }

  // ---------- a rendering that does not fit ----------

  lemma NumberDoesNotFit(w: nat, m: Member, s: seq<byte>, i: nat, c: nat, e: nat)
    requires IsItem(m) && |DecimalText(m.value.number.Floor)| >= w
    requires i < |s| && Skip(s, i) == i && Occurs(s, i, StaleString(w, m.name))
    requires c == i + |StaleString(w, m.name)| && c < |s| && At(s, c) == COLON
    requires Skip(s, c) == c && Skip(s, c + 1) == c + 1
    requires Occurs(s, c + 1, StaleText(w, m.value))
    ensures !ParseMembers(s, i).Done?
  {
    hide ParseValue, ParseString, ParseMember, ParseMembers, PrintString, DecimalText, Occurs, Skip, DamagedString;
    PlainNameIsQuoted(w, [], m.name);
    StringAsDamaged(w, s, i, m.name, c);
    NamedMember(s, i, c, DamagedString(w, m.name));
    LongNumber(w, s, c + 1, m.value.number.Floor);
    MembersStopAtLetter(s, i);
  }

  lemma FittingItem(w: nat, m: Member)
    requires IsItem(m) && |DecimalText(m.value.number.Floor)| < w
    ensures PrintableMember(m) && MemberFits(w, m)
  {
    hide DecimalText;
    PlainNameIsQuoted(w, [], m.name);
  }

  /** Items one of which does not fit are not read at all. */
  lemma {:induction false} ItemsAreNotRead(w: nat, ms: seq<Member>, s: seq<byte>, i: nat, k: nat)
    requires (forall j :: 0 <= j < |ms| ==> IsItem(ms[j])) && k < |ms| && IsItem(ms[k])
    requires |DecimalText(ms[k].value.number.Floor)| >= w
    requires Occurs(s, i, StaleMembers(w, ms))
    ensures i < |s| && !ParseMembers(s, i).Done?
  {
    hide ParseValue, ParseMember, ParseMembers, StaleText, StaleString, StaleMembers, DecimalText, Occurs, Skip;
    hide MemberFits, PrintableMember;
    var c, e := FirstPrintedMember(w, ms, s, i);
    var m := ms[0];
    if |DecimalText(m.value.number.Floor)| >= w {
      NumberDoesNotFit(w, m, s, i, c, e);
    } else {
      FittingItem(w, m);
      FittingMember(w, m, s, i, c, e);
      ItemsAreNotRead(w, ms[1..], s, e + 1, k - 1);
      MembersMore(s, i, e, m);
    }
  }

  lemma ClippedIsNotJson(w: nat, ints: seq<int32>)
    requires NAMED <= |ints| && !ItemsFit(w, ints)
    ensures MembersOfText(StaleConfig(w, ints)) == None
  {
    hide ParseValue, ParseMembers, StaleText, StaleMembers, Name, ConfigMembers, DecimalText, Occurs, Fits, Printable;
    ConfigIsItems(ints, w);
    var ms, s := ConfigMembers(ints, NAMED), StaleConfig(w, ints);
    var k :| 0 <= k < NAMED && |DecimalText(ints[k])| >= w;
    assert ms[k].value == Number(ints[k] as real);
    ObjectText(s, ms, w);
    ItemsAreNotRead(w, ms, s, 1, k);
    ObjectAt(s, 0);
  }

  lemma ObjectText(s: seq<byte>, ms: seq<Member>, w: nat)
    requires |ms| > 0 && s == StaleText(w, Object(ms))
    ensures |s| > 0 && s[0] == LBRACE && Skip(s, 0) == 0 && Occurs(s, 1, StaleMembers(w, ms))
    ensures At(s, Skip(s, 1)) == QUOTE
  {
    hide StaleText, StaleMembers, StaleString, Skip;
    StaleObject(w, ms);
    assert s[1..] == StaleMembers(w, ms);
    VisibleStart(s);
    var c, e := FirstPrintedMember(w, ms, s, 1);
    FirstOfString(w, ms[0].name);
    OccursAt(s, 1, StaleString(w, ms[0].name), 0);
  }

  lemma StaleObject(w: nat, ms: seq<Member>)
    requires |ms| > 0
    ensures StaleText(w, Object(ms)) == [LBRACE] + StaleMembers(w, ms)
  {
    hide PrintMembers;
  }

  lemma VisibleStart(s: seq<byte>)
    requires |s| > 0 && s[0] > 32
    ensures Skip(s, 0) == 0
  {
  }

  // ---------- sending and receiving ----------

  /** The items as a client sends them on: the text that GET gave it, framed as a SET. */
  function Sent(w: nat, held: Held, ints: seq<int32>): seq<byte>
    requires NAMED <= |ints|
  {
    Frame(Request(SET, ConfigText(w, held, ints)))
  }

  /** The items after a SET of the text. */
  function AfterSet(ints: seq<int32>, text: seq<byte>): seq<int32> {
    match MembersOfText(text)
    case Some(ms) => if InRange(ms) then ItemsAfter(ints, ms) else ints
    case None => ints
  }

  /** The argument of the first line of a stream, if that is a SET with one. */
  function SetArgument(stream: seq<byte>, size: nat): Option<seq<byte>> {
    match LineOf(stream, size)
    case NoLine => None
    case Line(payload, _) =>
      var (word, argument) := Split(UpToNul(payload));
      if word == Some(SET) then argument else None
  }

  /** The items of a receiver after the first line of the stream, if that is a SET. */
  function Received(stream: seq<byte>, size: nat, other: seq<int32>): seq<int32> {
    match SetArgument(stream, size)
    case Some(text) => AfterSet(other, text)
    case None => other
  }

  /** A visible text that fits the line buffer arrives as the argument of the SET. */
  lemma TextArrives(text: seq<byte>, size: nat, other: seq<int32>)
    requires Visible(text) && |text| > 0
    ensures SetArgument(Frame(Request(SET, text)), size) == if |text| + 4 < size then Some(text) else None
    ensures |text| + 4 < size ==> Received(Frame(Request(SET, text)), size, other) == AfterSet(other, text)
    ensures |text| + 4 >= size ==> Received(Frame(Request(SET, text)), size, other) == other
  {
    hide LineOf, Split, UpToNul, AfterSet;
    var r := Request(SET, text);
    assert Unframed(r) && NulFree(r) && IsWord(text) && IsWord(SET);
    if |text| + 4 < size {
      NoRun([], size);
      assert [] + Frame(r) + [] == Frame(r);
      FrameIsRead([], r, [], size);
      RequestSplits(SET, text);
    } else {
      LongFrame(r, size);
    }
  }

  /** A frame whose payload is as long as the buffer or longer is lost. */
  lemma LongFrame(payload: seq<byte>, size: nat)
    requires Unframed(payload) && |payload| >= size
    ensures LineOf(Frame(payload), size) == NoLine
  {
    hide RunStart;
    var s := Frame(payload);
    assert forall k :: 1 <= k <= size ==> s[k] == payload[k - 1];
    RunStartUnframed(s, 1, size + 1);
    TooLong(s, size + 1, size);
  }

  // ---------- the round trip ----------

  /** Renderings that fit are the same whatever the fresh blocks held. */
  lemma FittingText(w: nat, held: Held, ints: seq<int32>)
    requires NAMED <= |ints| && ItemsFit(w, ints)
    ensures ConfigText(w, held, ints) == StaleConfig(w, ints)
  {
    hide Print, ConfigValue, ItemsFit, Fits, Printable;
    ConfigIsItems(ints, w);
    PrintIsText(w, held, ConfigValue(ints));
    PrintIsText(w, Stale(ConfigValue(ints)), ConfigValue(ints));
  }

  lemma TextIsVisible(w: nat, ints: seq<int32>)
    requires NAMED <= |ints|
    ensures Visible(StaleConfig(w, ints)) && |StaleConfig(w, ints)| > 0
  {
    hide PrintMembers, ConfigMembers, Name, DecimalText;
    ConfigIsItems(ints, w);
    ItemsAreVisible(w, ConfigMembers(ints, NAMED));
  }

  /** A text that fits is read as the items. */
  lemma TextIsRead(w: nat, ints: seq<int32>)
    requires NAMED <= |ints| && ItemsFit(w, ints)
    ensures MembersOfText(StaleConfig(w, ints)) == Some(ConfigMembers(ints, NAMED))
  {
    hide Print, ConfigMembers, ItemsFit, Fits, Printable, ParseValue;
    ConfigIsItems(ints, w);
    TextIsVisible(w, ints);
    var s := StaleConfig(w, ints);
    assert s[0..|s|] == s;
    RoundTripAt(w, Stale(ConfigValue(ints)), ConfigValue(ints), s, 0, |s|);
  }

  /** The transfer, when everything fits: the named items become those of the sender, the others stay. */
  lemma TransferWorks(w: nat, held: Held, ints: seq<int32>, size: nat, other: seq<int32>)
    requires |ints| == |other| == NUM_INTS && ItemsFit(w, ints) && |ConfigText(w, held, ints)| + 4 < size
    ensures Received(Sent(w, held, ints), size, other) == ints[..NAMED] + other[NAMED..]
  {
    hide ConfigText, ConfigMembers, ItemsFit, Received, MembersOfText, ItemsAfter;
    FittingText(w, held, ints);
    TextIsVisible(w, ints);
    TextArrives(StaleConfig(w, ints), size, other);
    TextIsRead(w, ints);
    SetWhatWasSent(ints, other);
  }

  /** When a rendering or the line does not fit, nothing arrives: the receiver keeps its items. */
  lemma TransferFails(w: nat, ints: seq<int32>, size: nat, other: seq<int32>)
    requires |ints| == |other| == NUM_INTS && (!ItemsFit(w, ints) || |StaleConfig(w, ints)| + 4 >= size)
    ensures Received(Sent(w, Stale(ConfigValue(ints)), ints), size, other) == other
  {
    hide StaleConfig, ItemsFit, Received, MembersOfText, Print;
    assert ConfigText(w, Stale(ConfigValue(ints)), ints) == StaleConfig(w, ints) by { StaleConfigIs(w, ints); }
    TextIsVisible(w, ints);
    TextArrives(StaleConfig(w, ints), size, other);
    if !ItemsFit(w, ints) {
      ClippedIsNotJson(w, ints);
    }
  }

  /**
   The round trip over the wire: the named items arrive at every receiver, whatever the fresh blocks of
   the sender held, if and only if every one of them is rendered in fewer than W characters and the
   whole request is shorter than the line buffer.
   */
  lemma TransferExactlyWhenItFits(w: nat, ints: seq<int32>, size: nat)
    requires |ints| == NUM_INTS
    ensures (forall held: Held, other: seq<int32> | Harmless(w, held, ConfigValue(ints)) && |other| == NUM_INTS ::
              ItemsArrive(w, held, ints, size, other)) <==>
            ItemsFit(w, ints) && |StaleConfig(w, ints)| + 4 < size
  {
    hide ConfigText, ItemsFit, Received, Sent;
    if ItemsFit(w, ints) && |StaleConfig(w, ints)| + 4 < size {
      forall held: Held, other: seq<int32> | Harmless(w, held, ConfigValue(ints)) && |other| == NUM_INTS
        ensures ItemsArrive(w, held, ints, size, other)
      {
        FittingText(w, held, ints);
        TransferWorks(w, held, ints, size, other);
      }
    } else {
      var other := ints[0 := if ints[0] == 0 then 1 else 0];
      TransferFails(w, ints, size, other);
      assert other[..NAMED][0] != ints[..NAMED][0];
      ConfigIsItems(ints, w);
      StaleEnds(w, ConfigValue(ints));
      assert Harmless(w, Stale(ConfigValue(ints)), ConfigValue(ints));
      assert !ItemsArrive(w, Stale(ConfigValue(ints)), ints, size, other);
    }
  }

  ghost predicate ItemsArrive(w: nat, held: Held, ints: seq<int32>, size: nat, other: seq<int32>)
    requires |ints| == |other| == NUM_INTS
  {
    var after := Received(Sent(w, held, ints), size, other);
    |after| == NUM_INTS && after[..NAMED] == ints[..NAMED]
  }

  // ---------- the device ----------

  const POINTER_SIZE: nat := 4
  const LINE_LENGTH: nat := 1024

  lemma ShortDecimal(n: int)
    ensures |DecimalText(n)| < 4 <==> -99 <= n <= 999
  {
    var m := if n < 0 then -n else n;
    assert DigitsText(m) == if m < 10 then [ZERO + m] else DigitsText(m / 10) + [ZERO + m % 10];
    assert DigitsText(m / 10) ==
      if m / 10 < 10 then [ZERO + m / 10] else DigitsText(m / 10 / 10) + [ZERO + m / 10 % 10];
  }

  /** With the pointers of the microcontroller, items fit from -99 to 999. */
  lemma ItemsOfThreeCharacters(ints: seq<int32>)
    requires NAMED <= |ints|
    ensures ItemsFit(POINTER_SIZE, ints) <==> forall i :: 0 <= i < NAMED ==> -99 <= ints[i] <= 999
  {
    hide DecimalText;
    forall i | 0 <= i < NAMED
      ensures |DecimalText(ints[i])| < POINTER_SIZE <==> -99 <= ints[i] <= 999
    {
      ShortDecimal(ints[i]);
    }
  }

  /** The configuration that the firmware starts with. */
  const DEFAULTS: seq<int32> := [
    100, -1, 2, 3, 40000, 34000, 41800, 34420, 57000, 53000, 100, 15, -500, 60, 1, 0, 1150, 0, 10000, 60000, 1,
    55000, 59000, 3, 15, 3, 15, 1, 1, 2000, 20, 5000, 30, 10000, 66, 60000, 100, 0, 0, 0, 0, 0
  ]

  /** That configuration does not survive the trip: on the device no receiver takes over any of it. */
  lemma DefaultsAreLost(other: seq<int32>)
    requires |other| == NUM_INTS
    ensures Received(Sent(POINTER_SIZE, Stale(ConfigValue(DEFAULTS)), DEFAULTS), LINE_LENGTH, other) == other
  {
    hide Received, Sent, ItemsFit;
    assert DEFAULTS[4] == 40000;
    ItemsOfThreeCharacters(DEFAULTS);
    TransferFails(POINTER_SIZE, DEFAULTS, LINE_LENGTH, other);
  }

  // ---------- reading behind a block ----------

  lemma ItemNumbersFit(w: nat, ints: seq<int32>)
    requires NAMED <= |ints|
    ensures InnerNumbersFit(w, ConfigValue(ints)) <==> ItemsFit(w, ints)
  {
    hide NameString, ConfigMembers, DecimalText;
    var ms := ConfigMembers(ints, NAMED);
    forall k | 0 <= k < NAMED
      ensures MemberNumbersFit(w, ms[k]) <==> |DecimalText(ints[k])| < w
    {
      assert ms[k] == Member(Name(k), Number(ints[k] as real));
    }
  }

  /**
   A GET of the items reads inside its blocks, whatever they held, if and only if every named item is rendered in
   fewer than W characters.
   */
  lemma GetReadsInsideExactlyWhenItemsFit(w: nat, ints: seq<int32>)
    requires NAMED <= |ints|
    ensures (forall held: Held | Recorded(held, ConfigValue(ints)) :: InnerEnd(w, held, ConfigValue(ints))) <==>
      ItemsFit(w, ints)
  {
    hide ConfigValue, ItemsFit, InnerNumbersFit, InnerEnd, Recorded, Fits, Printable;
    ConfigIsItems(ints, w);
    ItemNumbersFit(w, ints);
    ReadsInsideExactlyWhenNumbersFit(w, ConfigValue(ints));
  }

  /** For the configuration that the firmware starts with the printer may read behind a block on the device. */
  lemma DefaultsAreOverRead()
    ensures var v := ConfigValue(DEFAULTS);
      exists held: Held | Recorded(held, v) :: !InnerEnd(POINTER_SIZE, held, v)
  {
    hide ConfigValue, ItemsFit, InnerEnd, Recorded;
    assert DEFAULTS[4] == 40000;
    ItemsOfThreeCharacters(DEFAULTS);
    GetReadsInsideExactlyWhenItemsFit(POINTER_SIZE, DEFAULTS);
  }
}
