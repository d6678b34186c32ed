/**
 The hazard light detector of hazard_sensor.c: samples of the two turn signals and the expiry of two
 timers drive a state machine over a ring buffer of the last samples.
 */
module Hazard {

  const NUM_HAZ: nat := 5
  const PRE0: nat := 0
  const PRE1: nat := 1
  const PRE2: nat := 2
  const PRE3: nat := 3

  datatype UserState = O | H

  /** The static variables of the module. */
  datatype State = State(cells: seq<nat>, index: nat, sum: int, count: int, user: UserState, pend: nat)

  const CLEARED: seq<nat> := [0, 0, 0, 0, 0]
  const INITIAL: State := State(CLEARED, 0, 0, 0, O, PRE0)

  /** A callback: a sample of the two signals, or the expiry of the off or of the cancel timer. */
  datatype Input = Sample(left: bool, right: bool) | Off | Cancel

  predicate Matched(x: Input) { x.Sample? && x.left && x.right }

  /** What one callback makes of the state, and the events it sends, with the thresholds it reads. */
  function Step(s: State, x: Input, detect: int, cancel: int): (State, seq<UserState>)
    requires |s.cells| == NUM_HAZ && s.index < NUM_HAZ
  {
    match x
    case Off =>
      (s.(pend := if s.pend == PRE1 then PRE2 else s.pend, cells := CLEARED, sum := 0, count := 0), [])
    case Cancel =>
      (s.(pend := PRE0, user := if s.pend != PRE0 then O else s.user, cells := CLEARED, sum := 0, count := 0),
       if s.pend != PRE0 && s.user == H then [O] else [])
    case Sample(left, right) =>
      if !left || !right then (s, [])
      else
        var t := s.(cells := s.cells[s.index := 1], sum := s.sum + 1 - s.cells[s.index],
                    index := (s.index + 1) % NUM_HAZ);
        if t.count >= cancel then
          (t.(user := O, pend := PRE0, cells := CLEARED, sum := 0, count := 0), if t.user == H then [O] else [])
        else if t.sum <= detect then (t, [])
        else if t.pend == PRE0 then (t.(pend := PRE1), [])
        else if t.pend == PRE2 then (t.(pend := PRE3, user := H), [H])
        else if t.pend == PRE1 then (t.(count := t.count + 1), [])
        else (t, [])
  }

  // ---------- the callbacks ----------

  class Sensor {
    const hazArray: array<nat>
    var hazIndex: nat
    var hazSum: int
    var hazCount: int
    var hazardState: UserState
    var pendHazState: nat
    var sent: seq<UserState>

    ghost predicate Valid()
      reads this
    {
      hazArray.Length == NUM_HAZ && hazIndex < NUM_HAZ
    }

    ghost function Value(): State
      reads this, hazArray
    {
      State(hazArray[..], hazIndex, hazSum, hazCount, hazardState, pendHazState)
    }

    /** initHazard, on static variables that are zero, up to the start of the timers. */
    constructor ()
      ensures Valid() && Value() == INITIAL && sent == []
    {
      hazArray := new nat[NUM_HAZ](_ => 0);
      hazIndex, hazSum, hazCount := 0, 0, 0;
      hazardState, pendHazState, sent := O, PRE0, [];
      new;
      assert hazArray[..] == CLEARED;
    }

    method SendEvent(e: UserState)
      modifies this`sent
      ensures sent == old(sent) + [e]
    {
      sent := sent + [e];
    }

    /** memset of the ring buffer, and the sum and the counter with it. */
    method Clear()
      requires Valid()
      modifies this`hazSum, this`hazCount, hazArray
      ensures Value() == old(Value()).(cells := CLEARED, sum := 0, count := 0)
    {
      var i := 0;
      while i < NUM_HAZ
        invariant i <= NUM_HAZ && forall k :: 0 <= k < i ==> hazArray[k] == 0
        modifies hazArray
      {
        hazArray[i] := 0;
        i := i + 1;
      }
      assert hazArray[..] == CLEARED;
      hazSum, hazCount := 0, 0;
    }

    /** TimerFlashSample, with the signals that it reads. */
    method TimerFlashSample(lsignal: bool, rsignal: bool, detect: int, cancel: int)
      requires Valid()
      modifies this, hazArray
      ensures Valid()
      ensures var (s, events) := Step(old(Value()), Sample(lsignal, rsignal), detect, cancel);
        Value() == s && sent == old(sent) + events
    {
      var oldHaz: int := hazArray[hazIndex];
      if !(lsignal || rsignal) {
        return;
      } else if lsignal != rsignal {
        return;
      }
      hazArray[hazIndex] := 1;
      hazSum := hazSum + (hazArray[hazIndex] - oldHaz);
      hazIndex := (hazIndex + 1) % NUM_HAZ;
      if hazCount < cancel {
        if hazSum > detect {
          if pendHazState == PRE0 {
            pendHazState := PRE1;
          } else if pendHazState == PRE2 {
            pendHazState := PRE3;
            hazardState := H;
            SendEvent(H);
          } else if pendHazState == PRE1 {
            hazCount := hazCount + 1;
          }
        }
      } else {
        if hazardState == H {
          SendEvent(O);
        }
        hazardState := O;
        pendHazState := PRE0;
        Clear();
      }
    }

    /** TimerFlashOff */
    method TimerFlashOff(detect: int, cancel: int)
      requires Valid()
      modifies this, hazArray
      ensures Valid()
      ensures var (s, events) := Step(old(Value()), Off, detect, cancel); Value() == s && sent == old(sent) + events
    {
      if pendHazState == PRE1 {
        pendHazState := PRE2;
      }
      Clear();
    }

    /** TimerFlashCancel */
    method TimerFlashCancel(detect: int, cancel: int)
      requires Valid()
      modifies this, hazArray
      ensures Valid()
      ensures var (s, events) := Step(old(Value()), Cancel, detect, cancel); Value() == s && sent == old(sent) + events
    {
      if pendHazState != PRE0 {
        if hazardState == H {
          hazardState := O;
          SendEvent(O);
        }
        pendHazState := PRE0;
      }
      Clear();
    }
  }

  // ---------- what every callback keeps ----------

  function Sum(cells: seq<nat>): nat {
    if |cells| == 0 then 0 else cells[0] + Sum(cells[1..])
  }

  /** The n cells before the index, going round, hold a one, and the others a zero. */
  predicate LastOnes(cells: seq<nat>, index: nat, n: nat)
    requires |cells| == NUM_HAZ && index < NUM_HAZ
  {
    forall k :: 0 <= k < NUM_HAZ ==> cells[k] == if Age(index, k) < n then 1 else 0
  }

  /**
   The invariant of the detector, where m samples have matched since the buffer was last cleared: the
   sum is that of the buffer and counts them up to five, H is exactly PRE3, and the counter runs only
   in PRE1.
   */
  predicate Sane(s: State, m: nat) {
    && |s.cells| == NUM_HAZ && s.index < NUM_HAZ && s.pend <= PRE3
    && LastOnes(s.cells, s.index, m) && s.sum == Sum(s.cells) && s.sum == (if m < NUM_HAZ then m else NUM_HAZ)
    && (s.user == H <==> s.pend == PRE3)
    && s.count >= 0 && (s.count > 0 ==> s.pend == PRE1)
  }

  lemma SumOfCells(cells: seq<nat>)
    requires |cells| == NUM_HAZ
    ensures Sum(cells) == cells[0] + cells[1] + cells[2] + cells[3] + cells[4]
  {
    SumFrom(cells, 0);
    SumFrom(cells, 1);
    SumFrom(cells, 2);
    SumFrom(cells, 3);
    SumFrom(cells, 4);
    assert cells[0..] == cells && cells[5..] == [];
  }

  lemma SumFrom(cells: seq<nat>, i: nat)
    requires i < |cells|
    ensures Sum(cells[i..]) == cells[i] + Sum(cells[i + 1..])
  {
    assert cells[i..][1..] == cells[i + 1..];
  }

  /** How long ago, counted in matched samples, the cell k was written. */
  function Age(index: nat, k: nat): nat
    requires index < NUM_HAZ && k < NUM_HAZ
  {
    (index + NUM_HAZ - 1 - k) % NUM_HAZ
  }

  lemma Ageing(index: nat, k: nat)
    requires index < NUM_HAZ && k < NUM_HAZ
    ensures Age((index + 1) % NUM_HAZ, k) == if k == index then 0 else Age(index, k) + 1
    ensures Age(index, k) <= 4 && (Age(index, k) == 4 <==> k == index)
  {
  }

  /** A matched sample is written over the oldest cell. */
  lemma RingPut(cells: seq<nat>, index: nat, m: nat)
    requires |cells| == NUM_HAZ && index < NUM_HAZ && LastOnes(cells, index, m)
    ensures LastOnes(cells[index := 1], (index + 1) % NUM_HAZ, m + 1)
    ensures cells[index] == if m < NUM_HAZ then 0 else 1
    ensures Sum(cells[index := 1]) == Sum(cells) + 1 - cells[index]
  {
    hide Sum;
    var after := cells[index := 1];
    forall k | 0 <= k < NUM_HAZ
      ensures after[k] == if Age((index + 1) % NUM_HAZ, k) < m + 1 then 1 else 0
    {
      Ageing(index, k);
      assert cells[k] == if Age(index, k) < m then 1 else 0;
    }
    Ageing(index, index);
    SumOfCells(cells);
    SumOfCells(cells[index := 1]);
  }

  /** How many samples have matched since the last clear, after one more callback. */
  function Count(s: State, m: nat, x: Input, cancel: int): nat {
    if x.Off? || x.Cancel? then 0
    else if !Matched(x) then m
    else if s.count >= cancel then 0
    else m + 1
  }

  lemma StepIsSane(s: State, m: nat, x: Input, detect: int, cancel: int)
    requires Sane(s, m)
    ensures Sane(Step(s, x, detect, cancel).0, Count(s, m, x, cancel))
  {
    hide LastOnes, Sum;
    ClearedIsSane(s.index);
    if Matched(x) {
      RingPut(s.cells, s.index, m);
      ClearedIsSane((s.index + 1) % NUM_HAZ);
    }
  }

  lemma ClearedIsSane(index: nat)
    requires index < NUM_HAZ
    ensures LastOnes(CLEARED, index, 0) && Sum(CLEARED) == 0
  {
    SumOfCells(CLEARED);
  }

  lemma InitialIsSane()
    ensures Sane(INITIAL, 0)
  {
    SumOfCells(CLEARED);
  }

  // ---------- whole runs ----------

  /** The state after the callbacks, the samples matched since the last clear, and the events sent. */
  function Exec(xs: seq<Input>, detect: int, cancel: int): (r: (State, nat, seq<UserState>))
    ensures Sane(r.0, r.1)
  {
    if |xs| == 0 then
      InitialIsSane();
      (INITIAL, 0, [])
    else
      var (s, m, events) := Exec(xs[..|xs| - 1], detect, cancel);
      var x := xs[|xs| - 1];
      var (t, more) := Step(s, x, detect, cancel);
      StepIsSane(s, m, x, detect, cancel);
      (t, Count(s, m, x, cancel), events + more)
  }

  /**
   The pending states follow one another, each step with its cause; an event is sent with every change of the state.
   */
  lemma Transition(s: State, m: nat, x: Input, detect: int, cancel: int)
    requires Sane(s, m)
    ensures var (t, events) := Step(s, x, detect, cancel);
      && events == (if t.user == s.user then [] else [t.user])
      && t.pend in {s.pend, PRE0, s.pend + 1}
      && (t.pend == s.pend + 1 && (s.pend == PRE0 || s.pend == PRE2) ==> Matched(x) && Count(s, m, x, cancel) > detect)
      && (t.pend == s.pend + 1 && s.pend == PRE1 ==> x == Off)
  {
    hide Sum;
    if Matched(x) {
      RingPut(s.cells, s.index, m);
    }
  }

  /** The buffer has five cells: a threshold of five or more is never exceeded; nor is one when every match cancels. */
  lemma {:induction false} NeverHazard(xs: seq<Input>, detect: int, cancel: int)
    requires detect >= 5 || cancel <= 0
    ensures Exec(xs, detect, cancel).2 == [] && Exec(xs, detect, cancel).0.pend == PRE0
  {
    if |xs| > 0 {
      NeverHazard(xs[..|xs| - 1], detect, cancel);
    }
  }

  /** H is left by the cancel timer, and by a matched sample exactly when the cancel count is not positive. */
  lemma ExitFromHazard(xs: seq<Input>, detect: int, cancel: int, x: Input)
    requires Exec(xs, detect, cancel).0.user == H
    ensures Step(Exec(xs, detect, cancel).0, x, detect, cancel).0.user == O <==>
      x == Cancel || (Matched(x) && cancel <= 0)
    ensures Step(Exec(xs, detect, cancel).0, x, detect, cancel).1 ==
      if x == Cancel || (Matched(x) && cancel <= 0) then [O] else []
  {
  }

  /** The samples matched since the last clear, when the first n callbacks of a run are over. */
  function MatchedBy(xs: seq<Input>, n: nat, detect: int, cancel: int): nat
    requires n <= |xs|
  {
    Exec(xs[..n], detect, cancel).1
  }

  function PendAt(xs: seq<Input>, n: nat, detect: int, cancel: int): nat
    requires n <= |xs|
  {
    Exec(xs[..n], detect, cancel).0.pend
  }

  /**
   The first flashing: the sample a was matched, the one that made more than detect of them in one
   uncleared window, and from then on the detector has not been back in PRE0.
   */
  predicate Flashed(xs: seq<Input>, a: nat, n: nat, detect: int, cancel: int)
    requires a < n <= |xs|
  {
    && Matched(xs[a]) && MatchedBy(xs, a + 1, detect, cancel) > detect
    && PendAt(xs, a, detect, cancel) == PRE0 && forall k :: a < k <= n ==> PendAt(xs, k, detect, cancel) != PRE0
  }

  /**
   What a run has seen by the time it is in a pending state: flashing, then the off timer, then flashing
   again, each time with more than detect matched samples in one uncleared window.
   */
  predicate History(xs: seq<Input>, n: nat, a: nat, o: nat, b: nat, detect: int, cancel: int)
    requires n <= |xs|
  {
    var pend := PendAt(xs, n, detect, cancel);
    && (pend >= PRE1 ==> a < n && Flashed(xs, a, n, detect, cancel))
    && (pend >= PRE2 ==> a < o < n && xs[o] == Off)
    && (pend == PRE3 ==> o < b < n && Matched(xs[b]) && MatchedBy(xs, b + 1, detect, cancel) > detect)
  }

  /** The events of a run alternate, H first, and H is the state exactly after an H. */
  lemma {:induction false} EventsAlternate(xs: seq<Input>, n: nat, detect: int, cancel: int)
    requires n <= |xs|
    ensures var (s, m, events) := Exec(xs[..n], detect, cancel);
      && (forall k :: 0 <= k < |events| ==> events[k] == if k % 2 == 0 then H else O)
      && (s.user == H <==> |events| % 2 == 1)
  {
    hide Step, Sane, Exec;
    NoCallbacks(xs, detect, cancel);
    if n > 0 {
      EventsAlternate(xs, n - 1, detect, cancel);
      LastStep(xs, n, detect, cancel);
      var (s, m, events) := Exec(xs[..n - 1], detect, cancel);
      Transition(s, m, xs[n - 1], detect, cancel);
    }
  }

  /** Every run that is in PRE3, that is in H, has that history: this is the only way into H. */
  lemma {:induction false} HazardNeedsHistory(xs: seq<Input>, n: nat, detect: int, cancel: int)
    returns (a: nat, o: nat, b: nat)
    requires n <= |xs|
    ensures History(xs, n, a, o, b, detect, cancel)
    ensures Exec(xs[..n], detect, cancel).0.user == H <==> PendAt(xs, n, detect, cancel) == PRE3
  {
    hide Step, Sane, Exec, LastOnes, Sum;
    NoCallbacks(xs, detect, cancel);
    a, o, b := 0, 0, 0;
    if n > 0 {
      a, o, b := HazardNeedsHistory(xs, n - 1, detect, cancel);
      var (s, m, events) := Exec(xs[..n - 1], detect, cancel);
      LastStep(xs, n, detect, cancel);
      Transition(s, m, xs[n - 1], detect, cancel);
      var now := PendAt(xs, n, detect, cancel);
      if s.pend == PRE0 && now == PRE1 { a := n - 1; }
      if s.pend == PRE1 && now == PRE2 { o := n - 1; }
      if s.pend == PRE2 && now == PRE3 { b := n - 1; }
    }
    PendRange(xs[..n], detect, cancel);
  }

  lemma LastStep(xs: seq<Input>, n: nat, detect: int, cancel: int)
    requires 0 < n <= |xs|
    ensures var (s, m, events) := Exec(xs[..n - 1], detect, cancel);
      && |s.cells| == NUM_HAZ && s.index < NUM_HAZ
      && Exec(xs[..n], detect, cancel).0 == Step(s, xs[n - 1], detect, cancel).0
      && Exec(xs[..n], detect, cancel).1 == Count(s, m, xs[n - 1], cancel)
      && Exec(xs[..n], detect, cancel).2 == events + Step(s, xs[n - 1], detect, cancel).1
      && s.pend <= PRE3 && Exec(xs[..n], detect, cancel).0.pend <= PRE3 && Sane(s, m)
  {
    hide Step, Count;
    assert xs[..n][..n - 1] == xs[..n - 1];
  }

  lemma NoCallbacks(xs: seq<Input>, detect: int, cancel: int)
    ensures Exec(xs[..0], detect, cancel) == (INITIAL, 0, [])
  {
  }

  lemma PendRange(xs: seq<Input>, detect: int, cancel: int)
    ensures Exec(xs, detect, cancel).0.pend <= PRE3
    ensures Exec(xs, detect, cancel).0.user == H <==> Exec(xs, detect, cancel).0.pend == PRE3
  {
  }

  // ---------- reaching H ----------

  function Flashes(k: nat): seq<Input> {
    if k == 0 then [] else Flashes(k - 1) + [Sample(true, true)]
  }

  lemma OneMore(xs: seq<Input>, x: Input, detect: int, cancel: int)
    ensures var (s, m, events) := Exec(xs, detect, cancel);
      && |s.cells| == NUM_HAZ && s.index < NUM_HAZ && Sane(s, m)
      && Exec(xs + [x], detect, cancel).0 == Step(s, x, detect, cancel).0
      && Exec(xs + [x], detect, cancel).1 == Count(s, m, x, cancel)
  {
    hide Step, Count, Sane;
    LastStep(xs + [x], |xs| + 1, detect, cancel);
    assert (xs + [x])[..|xs| + 1] == xs + [x] && (xs + [x])[..|xs|] == xs;
  }

  /** How many matched samples exceed the threshold; a negative one is exceeded by the first. */
  function Needed(detect: int): nat { if detect < 0 then 1 else detect + 1 }

  /** Matched samples in a cleared window: nothing happens up to the threshold, and the next one is the flash. */
  lemma {:induction false} FlashingCounts(xs: seq<Input>, k: nat, detect: int, cancel: int)
    requires Exec(xs, detect, cancel).1 == 0 && Exec(xs, detect, cancel).0.pend in {PRE0, PRE2}
    requires k <= Needed(detect) && detect < 5 && cancel > 0
    ensures Exec(xs + Flashes(k), detect, cancel).1 == k
    ensures Exec(xs + Flashes(k), detect, cancel).0.pend ==
      Exec(xs, detect, cancel).0.pend + if k == Needed(detect) then 1 else 0
  {
    hide Exec, Sum, LastOnes;
    if k == 0 {
      assert xs + Flashes(0) == xs;
    } else {
      FlashingCounts(xs, k - 1, detect, cancel);
      var ys := xs + Flashes(k - 1);
      var (s, m, events) := Exec(ys, detect, cancel);
      assert xs + Flashes(k) == ys + [Sample(true, true)];
      OneMore(ys, Sample(true, true), detect, cancel);
      RingPut(s.cells, s.index, m);
    }
  }

  /** Flashing, a pause, and flashing again. */
  function TwoFlashes(detect: int): seq<Input> { Flashes(Needed(detect)) + [Off] + Flashes(Needed(detect)) }

  /** Some run comes into H if and only if the threshold is below five and the cancel count is positive. */
  lemma HazardIsReached(detect: int, cancel: int)
    ensures (exists xs :: Exec(xs, detect, cancel).0.user == H) <==> detect < 5 && cancel > 0
  {
    hide Exec, Step, Sum, LastOnes;
    if detect < 5 && cancel > 0 {
      var none: seq<Input> := [];
      NoCallbacks(none, detect, cancel);
      assert none[..0] == none && none + Flashes(Needed(detect)) == Flashes(Needed(detect));
      FlashingCounts(none, Needed(detect), detect, cancel);
      var paused := Flashes(Needed(detect)) + [Off];
      OneMore(Flashes(Needed(detect)), Off, detect, cancel);
      PauseFollows(Exec(Flashes(Needed(detect)), detect, cancel).0, detect, cancel);
      FlashingCounts(paused, Needed(detect), detect, cancel);
      PendRange(TwoFlashes(detect), detect, cancel);
      assert Exec(TwoFlashes(detect), detect, cancel).0.user == H;
    } else {
      forall xs
        ensures Exec(xs, detect, cancel).0.user == O
      {
        NeverHazard(xs, detect, cancel);
        PendRange(xs, detect, cancel);
      }
    }
  }

  // ---------- steady flashing ----------

  lemma FlashesJoin(xs: seq<Input>, a: nat, b: nat)
    ensures xs + Flashes(a + b + 1) == (xs + Flashes(a + b)) + [Sample(true, true)]
  {
  }

  /**
   Steady flashing, from a cleared window in PRE0: the first flash leads to PRE1, every further one is counted there,
   and the one behind the cancel count clears everything and leads back to PRE0.
   */
  lemma {:induction false} SteadyFlashingCancels(xs: seq<Input>, k: nat, detect: int, cancel: int)
    requires Exec(xs, detect, cancel).1 == 0 && Exec(xs, detect, cancel).0.pend == PRE0
    requires detect < 5 && cancel > 0 && k <= cancel + 1
    ensures var (s, m, events) := Exec(xs + Flashes(Needed(detect) + k), detect, cancel);
      if k <= cancel then s.pend == PRE1 && s.count == k && m == Needed(detect) + k
      else s.pend == PRE0 && s.cells == CLEARED && s.sum == 0 && s.count == 0 && m == 0
  {
    hide Exec, Sum, LastOnes;
    if k == 0 {
      FlashingCounts(xs, Needed(detect), detect, cancel);
      FlashesJoin(xs, Needed(detect) - 1, 0);
      NotYetCounted(xs, detect, cancel);
    } else {
      SteadyFlashingCancels(xs, k - 1, detect, cancel);
      var ys := xs + Flashes(Needed(detect) + (k - 1));
      FlashesJoin(xs, Needed(detect), k - 1);
      OneMore(ys, Sample(true, true), detect, cancel);
      var (s, m, events) := Exec(ys, detect, cancel);
      RingPut(s.cells, s.index, m);
    }
  }

  /** The flash that leads to PRE1 is not counted. */
  lemma NotYetCounted(xs: seq<Input>, detect: int, cancel: int)
    requires Exec(xs, detect, cancel).1 == 0 && Exec(xs, detect, cancel).0.pend == PRE0 && detect < 5 && cancel > 0
    ensures Exec(xs + Flashes(Needed(detect)), detect, cancel).0.count == 0
  {
    hide Exec, Sum, LastOnes;
    var k := Needed(detect);
    FlashingCounts(xs, k - 1, detect, cancel);
    var ys := xs + Flashes(k - 1);
    FlashesJoin(xs, k - 1, 0);
    OneMore(ys, Sample(true, true), detect, cancel);
  }

  /** How many samples of a run have matched, from callback a up to callback n. */
  function Matches(xs: seq<Input>, a: nat, n: nat): nat
    requires a <= n <= |xs|
    decreases n
  {
    if n == a then 0 else Matches(xs, a, n - 1) + if Matched(xs[n - 1]) then 1 else 0
  }

  /**
   In PRE1 the counter is the number of samples that have matched since the flash that led there, and never
   above the cancel count; in the other states it is zero.
   */
  lemma {:induction false} CounterIsMatches(xs: seq<Input>, n: nat, detect: int, cancel: int) returns (a: nat)
    requires n <= |xs|
    ensures PendAt(xs, n, detect, cancel) != PRE1 ==> Exec(xs[..n], detect, cancel).0.count == 0
    ensures PendAt(xs, n, detect, cancel) == PRE1 ==>
      && a < n && Matched(xs[a]) && PendAt(xs, a, detect, cancel) == PRE0
      && (forall k :: a < k <= n ==> PendAt(xs, k, detect, cancel) == PRE1)
      && Exec(xs[..n], detect, cancel).0.count == Matches(xs, a + 1, n) <= cancel
      && MatchedBy(xs, n, detect, cancel) > detect && 0 < cancel && detect < 5
  {
    hide Exec, Sum, LastOnes;
    NoCallbacks(xs, detect, cancel);
    a := 0;
    if n > 0 {
      a := CounterIsMatches(xs, n - 1, detect, cancel);
      LastStep(xs, n, detect, cancel);
      var (s, m, events) := Exec(xs[..n - 1], detect, cancel);
      if Matched(xs[n - 1]) { RingPut(s.cells, s.index, m); }
      if s.pend == PRE0 { a := n - 1; }
    }
  }

  /** The pending state after a callback, by the samples that have matched since the last clear. */
  function PendAfter(pend: nat, matched: nat, counted: nat, x: Input, detect: int, cancel: int): nat {
    match x
    case Off => if pend == PRE1 then PRE2 else pend
    case Cancel => PRE0
    case Sample(_, _) =>
      if !Matched(x) then pend
      else if cancel <= counted then PRE0
      else if pend !in {PRE0, PRE2} || (matched + 1 <= detect) || 5 <= detect then pend
      else pend + 1
  }

  /**
   The callbacks of any run without the ring buffer: by the samples matched since the last clear, and in PRE1 since the
   flash; the off and the cancel timer clear the window, and so does a match behind the cancel count.
   */
  lemma RunsByCounting(xs: seq<Input>, n: nat, detect: int, cancel: int)
    requires n < |xs|
    ensures var (s, m, events) := Exec(xs[..n], detect, cancel);
      && PendAt(xs, n + 1, detect, cancel) == PendAfter(s.pend, m, s.count, xs[n], detect, cancel)
      && MatchedBy(xs, n + 1, detect, cancel) ==
         if !xs[n].Sample? || (Matched(xs[n]) && cancel <= s.count) then 0
         else if Matched(xs[n]) then m + 1
         else m
  {
    hide Exec, Sum, LastOnes;
    LastStep(xs, n + 1, detect, cancel);
    var (s, m, events) := Exec(xs[..n], detect, cancel);
    if Matched(xs[n]) { RingPut(s.cells, s.index, m); }
  }

  lemma PauseFollows(s: State, detect: int, cancel: int)
    requires |s.cells| == NUM_HAZ && s.index < NUM_HAZ && s.pend == PRE1
    ensures Step(s, Off, detect, cancel).0.pend == PRE2
  {
  }
}
