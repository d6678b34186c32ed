/**
 The named items of the database as JSON: the name table, the object that GET Config sends, and what
 SET makes of an object.
 */
module Config {
  import opened Bytes
  import opened Json
  import opened Names
  import opened Storage

  const NAMED: nat := 37

  /** The name table dbString, without the null pointer behind it. */
  function NameString(i: nat): string
    requires i < NAMED
  {
    match i
    case 0 => "PulsesPerRotation"
    case 1 => "WheelDir"
    case 2 => "NumberAxles"
    case 3 => "AxlePosBitMask"
    case 4 => "PressureAllUpperThreshold"
    case 5 => "PressureAllLowerThreshold"
    case 6 => "PressureLessOneUpperThreshold"
    case 7 => "PressureLessOneLowerThreshold"
    case 8 => "HighSpeedUpperThreshold"
    case 9 => "HighSpeedLowerThreshold"
    case 10 => "LowSpeedThreshold"
    case 11 => "SolenoidBitMask"
    case 12 => "ReverseThreshold"
    case 13 => "StopTime"
    case 14 => "SpeedSensorIndex"
    case 15 => "SpeedSensorRTD"
    case 16 => "WheelDiameter"
    case 17 => "LoadPressureSensor"
    case 18 => "MinSupplyPressure"
    case 19 => "MaxSupplyPressure"
    case 20 => "Warnings"
    case 21 => "LowerFullWeight"
    case 22 => "UpperFullWeight"
    case 23 => "FlashesHazDetect"
    case 24 => "FlashesCancelHazDetect"
    case 25 => "TimeoutHazOff"
    case 26 => "TimeoutHazCancel"
    case 27 => "FactoryVersion"
    case 28 => "CurrentVersion"
    case 29 => "L1"
    case 30 => "P1"
    case 31 => "L2"
    case 32 => "P2"
    case 33 => "L3"
    case 34 => "P3"
    case 35 => "L4"
    case _ => "P4"
  }

  predicate IsPlainChar(c: char) {
    '0' <= c <= '9' || 'A' <= c <= 'Z' || 'a' <= c <= 'z'
  }

  predicate IsPlain(s: string) {
    |s| >= 2 && forall i :: 0 <= i < |s| ==> IsPlainChar(s[i])
  }

  function Ascii(s: string): (r: seq<byte>)
    requires forall i :: 0 <= i < |s| ==> s[i] as int < 0x80
    ensures |r| == |s| && forall i :: 0 <= i < |s| ==> r[i] == s[i] as int
  {
    seq(|s|, i requires 0 <= i < |s| => s[i] as int)
  }

  function LowerCode(c: char): nat { if 'A' <= c <= 'Z' then c as int + 0x20 else c as int }

  /**
   What tells the names apart whatever their case: the length, the first two characters and the twelfth from the end.
   */
  datatype Key = Key(length: nat, first: nat, second: nat, inside: nat)

  function KeyOf(s: string): Key
    requires |s| >= 2
  {
    Key(|s|, LowerCode(s[0]), LowerCode(s[1]), if |s| >= 12 then LowerCode(s[|s| - 12]) else 0)
  }

  /** The keys of the names. */
  function NameKey(i: nat): Key
    requires i < NAMED
  {
    match i
    case 0 => Key(17, 0x70, 0x75, 0x73)
    case 1 => Key(8, 0x77, 0x68, 0x0)
    case 2 => Key(11, 0x6E, 0x75, 0x0)
    case 3 => Key(14, 0x61, 0x78, 0x6C)
    case 4 => Key(25, 0x70, 0x72, 0x70)
    case 5 => Key(25, 0x70, 0x72, 0x77)
    case 6 => Key(29, 0x70, 0x72, 0x70)
    case 7 => Key(29, 0x70, 0x72, 0x77)
    case 8 => Key(23, 0x68, 0x69, 0x70)
    case 9 => Key(23, 0x68, 0x69, 0x77)
    case 10 => Key(17, 0x6C, 0x6F, 0x65)
    case 11 => Key(15, 0x73, 0x6F, 0x65)
    case 12 => Key(16, 0x72, 0x65, 0x72)
    case 13 => Key(8, 0x73, 0x74, 0x0)
    case 14 => Key(16, 0x73, 0x70, 0x64)
    case 15 => Key(14, 0x73, 0x70, 0x65)
    case 16 => Key(13, 0x77, 0x68, 0x68)
    case 17 => Key(18, 0x6C, 0x6F, 0x65)
    case 18 => Key(17, 0x6D, 0x69, 0x70)
    case 19 => Key(17, 0x6D, 0x61, 0x70)
    case 20 => Key(8, 0x77, 0x61, 0x0)
    case 21 => Key(15, 0x6C, 0x6F, 0x65)
    case 22 => Key(15, 0x75, 0x70, 0x65)
    case 23 => Key(16, 0x66, 0x6C, 0x68)
    case 24 => Key(22, 0x66, 0x6C, 0x63)
    case 25 => Key(13, 0x74, 0x69, 0x69)
    case 26 => Key(16, 0x74, 0x69, 0x6F)
    case 27 => Key(14, 0x66, 0x61, 0x63)
    case 28 => Key(14, 0x63, 0x75, 0x72)
    case 29 => Key(2, 0x6C, 0x31, 0x0)
    case 30 => Key(2, 0x70, 0x31, 0x0)
    case 31 => Key(2, 0x6C, 0x32, 0x0)
    case 32 => Key(2, 0x70, 0x32, 0x0)
    case 33 => Key(2, 0x6C, 0x33, 0x0)
    case 34 => Key(2, 0x70, 0x33, 0x0)
    case 35 => Key(2, 0x6C, 0x34, 0x0)
    case _ => Key(2, 0x70, 0x34, 0x0)
  }

  /** The index of the name with the key. */
  function IndexOf(k: Key): nat {
    match ((k.length * 0x100 + k.first) * 0x100 + k.second) * 0x100 + k.inside
    case 0x11707573 => 0
    case 0x8776800 => 1
    case 0xB6E7500 => 2
    case 0xE61786C => 3
    case 0x19707270 => 4
    case 0x19707277 => 5
    case 0x1D707270 => 6
    case 0x1D707277 => 7
    case 0x17686970 => 8
    case 0x17686977 => 9
    case 0x116C6F65 => 10
    case 0xF736F65 => 11
    case 0x10726572 => 12
    case 0x8737400 => 13
    case 0x10737064 => 14
    case 0xE737065 => 15
    case 0xD776868 => 16
    case 0x126C6F65 => 17
    case 0x116D6970 => 18
    case 0x116D6170 => 19
    case 0x8776100 => 20
    case 0xF6C6F65 => 21
    case 0xF757065 => 22
    case 0x10666C68 => 23
    case 0x16666C63 => 24
    case 0xD746969 => 25
    case 0x1074696F => 26
    case 0xE666163 => 27
    case 0xE637572 => 28
    case 0x26C3100 => 29
    case 0x2703100 => 30
    case 0x26C3200 => 31
    case 0x2703200 => 32
    case 0x26C3300 => 33
    case 0x2703300 => 34
    case 0x26C3400 => 35
    case 0x2703400 => 36
    case _ => NAMED
  }

  /** No two keys are the same. */
  lemma KeysDiffer(i: nat)
    requires i < NAMED
    ensures IndexOf(NameKey(i)) == i
  {
  }

  /** Letters and digits, with its key. */
  predicate IsName(i: nat)
    requires i < NAMED
  {
    IsPlain(NameString(i)) && KeyOf(NameString(i)) == NameKey(i)
  }

  lemma NamesFrom0(i: nat)
    requires 0 <= i < 3
    ensures IsName(i)
  {
  }

  lemma NamesFrom3(i: nat)
    requires 3 <= i < 5
    ensures IsName(i)
  {
  }

  lemma NamesFrom5(i: nat)
    requires 5 <= i < 6
    ensures IsName(i)
  {
  }

  lemma NamesFrom6(i: nat)
    requires 6 <= i < 7
    ensures IsName(i)
  {
  }

  lemma NamesFrom7(i: nat)
    requires 7 <= i < 8
    ensures IsName(i)
  {
  }

  lemma NamesFrom8(i: nat)
    requires 8 <= i < 9
    ensures IsName(i)
  {
  }

  lemma NamesFrom9(i: nat)
    requires 9 <= i < 10
    ensures IsName(i)
  {
  }

  lemma NamesFrom10(i: nat)
    requires 10 <= i < 12
    ensures IsName(i)
  {
  }

  lemma NamesFrom12(i: nat)
    requires 12 <= i < 15
    ensures IsName(i)
  {
  }

  lemma NamesFrom15(i: nat)
    requires 15 <= i < 17
    ensures IsName(i)
  {
  }

  lemma NamesFrom17(i: nat)
    requires 17 <= i < 19
    ensures IsName(i)
  {
  }

  lemma NamesFrom19(i: nat)
    requires 19 <= i < 21
    ensures IsName(i)
  {
  }

  lemma NamesFrom21(i: nat)
    requires 21 <= i < 23
    ensures IsName(i)
  {
  }

  lemma NamesFrom23(i: nat)
    requires 23 <= i < 25
    ensures IsName(i)
  {
  }

  lemma NamesFrom25(i: nat)
    requires 25 <= i < 28
    ensures IsName(i)
  {
  }

  lemma NamesFrom28(i: nat)
    requires 28 <= i < 37
    ensures IsName(i)
  {
  }

  /** Every name is made of letters and digits, and has its key. */
  lemma NameIsPlain(i: nat)
    requires i < NAMED
    ensures IsName(i)
  {
    hide IsName;
    if i < 3 {
      NamesFrom0(i);
    } else if i < 5 {
      NamesFrom3(i);
    } else if i < 6 {
      NamesFrom5(i);
    } else if i < 7 {
      NamesFrom6(i);
    } else if i < 8 {
      NamesFrom7(i);
    } else if i < 9 {
      NamesFrom8(i);
    } else if i < 10 {
      NamesFrom9(i);
    } else if i < 12 {
      NamesFrom10(i);
    } else if i < 15 {
      NamesFrom12(i);
    } else if i < 17 {
      NamesFrom15(i);
    } else if i < 19 {
      NamesFrom17(i);
    } else if i < 21 {
      NamesFrom19(i);
    } else if i < 23 {
      NamesFrom21(i);
    } else if i < 25 {
      NamesFrom23(i);
    } else if i < 28 {
      NamesFrom25(i);
    } else {
      NamesFrom28(i);
    }
  }

  function Name(i: nat): (n: seq<byte>)
    requires i < NAMED
    ensures |n| >= 2
  {
    NameIsPlain(i);
    Ascii(NameString(i))
  }

  /** No two names of the table are the same but for case. */
  lemma NamesDiffer(i: nat, j: nat)
    requires i < NAMED && j < NAMED && EqualIgnoringCase(Name(i), Name(j))
    ensures i == j
  {
    hide NameString, IndexOf, NameKey;
    NameIsPlain(i);
    NameIsPlain(j);
    KeysDiffer(i);
    KeysDiffer(j);
    var a, b := Name(i), Name(j);
    assert Lower(a[0]) == Lower(b[0]) && Lower(a[1]) == Lower(b[1]);
    assert |a| >= 12 ==> Lower(a[|a| - 12]) == Lower(b[|b| - 12]);
  }

  // ---------- what SET makes of an object ----------

  predicate Known(name: seq<byte>) {
    exists i :: 0 <= i < NAMED && name == Name(i)
  }

  predicate AllKnown(ms: seq<Member>) {
    forall k :: 0 <= k < |ms| ==> Known(ms[k].name)
  }

  /** The index of the first member with the name, or the number of members. */
  function FirstNamed(ms: seq<Member>, name: seq<byte>): (k: nat)
    ensures k <= |ms| && (k < |ms| ==> ms[k].name == name) && forall j :: 0 <= j < k ==> ms[j].name != name
  {
    if |ms| == 0 || ms[0].name == name then 0 else 1 + FirstNamed(ms[1..], name)
  }

  predicate InRange(ms: seq<Member>) {
    forall k :: 0 <= k < |ms| ==> -0x8000_0000 <= ValueInt(ms[k].value) < 0x8000_0000
  }

  /** The item i after the members have been set: the value of the first member with its name, if there is one. */
  function ItemAfter(ints: seq<int32>, ms: seq<Member>, i: nat): int32
    requires i < |ints| && InRange(ms)
  {
    if i >= NAMED then ints[i]
    else
      var k := FirstNamed(ms, Name(i));
      if k < |ms| then ValueInt(ms[k].value) else ints[i]
  }

  /** All or nothing: the items after a SET of the members. */
  function ItemsAfter(ints: seq<int32>, ms: seq<Member>): (after: seq<int32>)
    requires InRange(ms)
    ensures |after| == |ints|
    ensures !AllKnown(ms) ==> after == ints
    ensures AllKnown(ms) ==> forall i :: 0 <= i < |ints| ==> after[i] == ItemAfter(ints, ms, i)
  {
    if AllKnown(ms) then seq(|ints|, i requires 0 <= i < |ints| => ItemAfter(ints, ms, i)) else ints
  }

  /** Setting no members changes no item. */
  lemma NothingSet(ints: seq<int32>)
    ensures AllKnown([]) && InRange([]) && ItemsAfter(ints, []) == ints
  {
  }

  /**
   Setting members is assigning them one after the other from the last to the first: the first member with a
   name wins, and items that are not named stay.
   */
  lemma SetIsAssignment(ints: seq<int32>, m: Member, rest: seq<Member>, i: nat)
    requires i < NAMED <= |ints| && m.name == Name(i) && AllKnown(rest) && InRange([m] + rest)
    ensures AllKnown([m] + rest) && InRange(rest) && -0x8000_0000 <= ValueInt(m.value) < 0x8000_0000
    ensures ItemsAfter(ints, [m] + rest) == ItemsAfter(ints, rest)[i := ValueInt(m.value)]
  {
    hide Name, AllKnown, FirstNamed;
    NameIsKnown(i);
    KnownTogether(m, rest);
    var ms := [m] + rest;
    assert ms[0] == m && forall k :: 0 <= k < |rest| ==> rest[k] == ms[k + 1];
    forall j | 0 <= j < |ints|
      ensures ItemAfter(ints, ms, j) == if j == i then ValueInt(m.value) else ItemAfter(ints, rest, j)
    {
      if j < NAMED {
        FirstNamedStep(m, rest, Name(j));
        if Name(j) == Name(i) { NamesDiffer(j, i); }
      }
    }
  }

  lemma FirstNamedStep(m: Member, rest: seq<Member>, name: seq<byte>)
    ensures FirstNamed([m] + rest, name) == if m.name == name then 0 else 1 + FirstNamed(rest, name)
  {
    assert ([m] + rest)[1..] == rest;
  }

  lemma KnownTogether(m: Member, rest: seq<Member>)
    requires Known(m.name) && AllKnown(rest)
    ensures AllKnown([m] + rest)
  {
    hide Known;
  }

  /** Where all names are known, looking a name up without regard to case finds it and nothing else. */
  lemma LookupIsExact(name: seq<byte>, i: nat)
    requires Known(name) && i < NAMED
    ensures EqualIgnoringCase(name, Name(i)) <==> name == Name(i)
  {
    hide Name;
    if EqualIgnoringCase(name, Name(i)) {
      var j :| 0 <= j < NAMED && name == Name(j);
      NamesDiffer(j, i);
    }
  }

  // ---------- what GET sends ----------

  /** The first n members of the object that GET Config sends. */
  function ConfigMembers(ints: seq<int32>, n: nat): (ms: seq<Member>)
    requires n <= NAMED <= |ints|
    ensures |ms| == n && forall i :: 0 <= i < n ==> ms[i] == Member(Name(i), Number(ints[i] as real))
  {
    if n == 0 then [] else ConfigMembers(ints, n - 1) + [Member(Name(n - 1), Number(ints[n - 1] as real))]
  }

  function ConfigValue(ints: seq<int32>): Value
    requires NAMED <= |ints|
  {
    Object(ConfigMembers(ints, NAMED))
  }

  lemma NameIsKnown(i: nat)
    requires i < NAMED
    ensures Known(Name(i))
  {
    hide Name;
  }

  lemma ConfigIsKnown(ints: seq<int32>)
    requires NAMED <= |ints|
    ensures AllKnown(ConfigMembers(ints, NAMED)) && InRange(ConfigMembers(ints, NAMED))
  {
    hide Name, ConfigMembers, Known;
    var ms := ConfigMembers(ints, NAMED);
    forall k | 0 <= k < |ms|
      ensures Known(ms[k].name) && ValueInt(ms[k].value) == ints[k]
    {
      NameIsKnown(k);
    }
  }

  /** The item i is the first one with its name. */
  lemma FirstOfItsName(ints: seq<int32>, i: nat)
    requires i < NAMED <= |ints|
    ensures FirstNamed(ConfigMembers(ints, NAMED), Name(i)) == i
  {
    hide Name, ConfigMembers, FirstNamed;
    var ms := ConfigMembers(ints, NAMED);
    var k := FirstNamed(ms, Name(i));
    assert ms[i].name == Name(i);
    assert k <= i && ms[k].name == Name(k) == Name(i);
    NamesDiffer(k, i);
  }

  /** Setting what was sent makes the named items those of the sender, and leaves the others. */
  lemma SetWhatWasSent(ints: seq<int32>, other: seq<int32>)
    requires |ints| == |other| == NUM_INTS
    ensures InRange(ConfigMembers(ints, NAMED))
    ensures ItemsAfter(other, ConfigMembers(ints, NAMED)) == ints[..NAMED] + other[NAMED..]
  {
    hide Name, ConfigMembers, FirstNamed, AllKnown, InRange, ItemsAfter;
    ConfigIsKnown(ints);
    var ms := ConfigMembers(ints, NAMED);
    forall i | 0 <= i < NUM_INTS
      ensures ItemAfter(other, ms, i) == if i < NAMED then ints[i] else other[i]
    {
      if i < NAMED {
        FirstOfItsName(ints, i);
        assert ms[i] == Member(Name(i), Number(ints[i] as real));
      }
    }
  }
}
