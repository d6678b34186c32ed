/**
 The load pressure state machine of pressure.c, with two thresholds for each of its two borders.
 */
module Pressure {

  datatype PressureState = FullHigh | L1High | L1Low | Init

  /** The four thresholds, as they are read from the database. */
  datatype Thresholds = Thresholds(fullUpper: int, fullLower: int, l1Upper: int, l1Lower: int)

  /** The state after one reading, and the events it sends, each named after the state it announces. */
  function Step(s: PressureState, p: int, t: Thresholds): (PressureState, seq<PressureState>) {
    match s
    case Init =>
      if p < t.l1Lower then (L1Low, [L1Low])
      else if p > t.fullUpper then (FullHigh, [FullHigh])
      else (L1High, [L1High])
    case L1Low =>
      if p > t.fullUpper then (FullHigh, if p > t.l1Upper then [L1High, FullHigh] else [FullHigh])
      else if p > t.l1Upper then (L1High, [L1High])
      else (L1Low, [])
    case L1High =>
      if p > t.fullUpper then (FullHigh, [FullHigh])
      else if p < t.l1Lower then (L1Low, [L1Low])
      else (L1High, [])
    case FullHigh =>
      if p < t.fullLower then (L1High, if p < t.l1Lower then [L1Low, L1High] else [L1High])
      else if p < t.l1Lower then (L1Low, [L1Low])
      else (FullHigh, [])
  }

  class Monitor {
    var pressureState: PressureState
    var sent: seq<PressureState>

    constructor ()
      ensures pressureState == Init && sent == []
    {
      pressureState, sent := Init, [];
    }

    method SendEvent(e: PressureState)
      modifies this`sent
      ensures sent == old(sent) + [e]
    {
      sent := sent + [e];
    }

    /** One turn of the loop in ThreadPressureSensor, from the load pressure on. */
    method Reading(lpressure: int, t: Thresholds)
      modifies this
      ensures (pressureState, sent) ==
        (Step(old(pressureState), lpressure, t).0, old(sent) + Step(old(pressureState), lpressure, t).1)
    {
      ghost var before := sent;
      assert before + [] == before && before + [L1High] + [FullHigh] == before + [L1High, FullHigh];
      assert before + [L1Low] + [L1High] == before + [L1Low, L1High];
      if pressureState == Init {
        if lpressure < t.l1Lower {
          pressureState := L1Low;
          SendEvent(L1Low);
        } else if lpressure > t.fullUpper {
          pressureState := FullHigh;
          SendEvent(FullHigh);
        } else {
          pressureState := L1High;
          SendEvent(L1High);
        }
      } else if pressureState == L1Low {
        if lpressure > t.l1Upper {
          pressureState := L1High;
          SendEvent(L1High);
        }
        if lpressure > t.fullUpper {
          pressureState := FullHigh;
          SendEvent(FullHigh);
        }
      } else if pressureState == L1High {
        if lpressure > t.fullUpper {
          pressureState := FullHigh;
          SendEvent(FullHigh);
        } else if lpressure < t.l1Lower {
          pressureState := L1Low;
          SendEvent(L1Low);
        }
      } else if pressureState == FullHigh {
        if lpressure < t.l1Lower {
          pressureState := L1Low;
          SendEvent(L1Low);
        }
        if lpressure < t.fullLower {
          pressureState := L1High;
          SendEvent(L1High);
        }
      }
    }
  }

  // ---------- a constant pressure ----------

  predicate AtRest(s: PressureState, p: int, t: Thresholds) { Step(s, p, t) == (s, []) }

  function TwoReadings(s: PressureState, p: int, t: Thresholds): PressureState {
    Step(Step(s, p, t).0, p, t).0
  }

  /** Upper thresholds may be as much as one below the lower ones they belong to, on integers. */
  predicate Ordered(t: Thresholds) {
    t.fullLower <= t.fullUpper + 1 && t.l1Lower <= t.l1Upper + 1 && t.l1Lower <= t.fullUpper + 1
  }

  /**
   From the start every constant pressure is at rest after one reading, and from every state after two, if and only if
   the thresholds are ordered; with thresholds that are not, some pressure keeps sending events for ever.
   */
  lemma SettlesExactlyWhenOrdered(t: Thresholds)
    ensures (forall p: int :: AtRest(Step(Init, p, t).0, p, t)) <==> Ordered(t)
    ensures (forall s: PressureState, p: int :: AtRest(TwoReadings(s, p, t), p, t)) <==> Ordered(t)
  {
    if !Ordered(t) {
      var p := Restless(t);
      assert !AtRest(Step(Init, p, t).0, p, t) && !AtRest(TwoReadings(Init, p, t), p, t);
    }
  }

  /** A constant pressure that, from the start on, never comes to rest, when the thresholds are not ordered. */
  lemma Restless(t: Thresholds) returns (p: int)
    requires !Ordered(t)
    ensures !AtRest(Step(Init, p, t).0, p, t) && !AtRest(TwoReadings(Init, p, t), p, t)
  {
    if t.fullLower > t.fullUpper + 1 {
      p := t.fullUpper + 1;
    } else if t.l1Lower > t.l1Upper + 1 {
      p := t.l1Upper + 1;
    } else {
      p := t.fullUpper + 1;
    }
  }

  /** The pressures at which a state keeps still: those of its band. */
  predicate InBand(s: PressureState, p: int, t: Thresholds) {
    match s
    case L1Low => p <= t.l1Upper && p <= t.fullUpper
    case L1High => t.l1Lower <= p <= t.fullUpper
    case FullHigh => t.fullLower <= p && t.l1Lower <= p
    case Init => false
  }

  /** A state is at rest exactly in its band; where several are, the first reading chooses the middle one. */
  lemma RestIsTheBand(s: PressureState, p: int, t: Thresholds)
    ensures AtRest(s, p, t) <==> InBand(s, p, t)
    ensures Step(Init, p, t).0 == L1High <==> InBand(L1High, p, t)
    ensures Step(Init, p, t).0 == L1Low <==> p < t.l1Lower
    ensures Step(Init, p, t).0 != Init
  {
  }

  /**
   Hysteresis, for ordered thresholds: after two readings of a constant pressure a state that is in its band is kept,
   and any other has become the one that a first reading gives; one reading is enough, but for a fall from the
   full state through both borders.
   */
  lemma BandsAreKept(s: PressureState, p: int, t: Thresholds)
    requires Ordered(t)
    ensures TwoReadings(s, p, t) == if InBand(s, p, t) then s else Step(Init, p, t).0
    ensures TwoReadings(s, p, t) == Step(s, p, t).0 <==> !(s == FullHigh && p < t.fullLower && p < t.l1Lower)
  {
  }

  /** That fall is announced by the low event, the middle one, and with the next reading the low one again. */
  lemma FullFallIsAnnouncedTwice(p: int, t: Thresholds)
    requires p < t.fullLower && p < t.l1Lower && p <= t.fullUpper
    ensures Step(FullHigh, p, t) == (L1High, [L1Low, L1High]) && Step(L1High, p, t) == (L1Low, [L1Low])
  {
  }

  /** Every event of a reading, in terms of the border that it crosses. */
  lemma EventsAreCrossings(s: PressureState, p: int, t: Thresholds)
    requires Ordered(t)
    ensures var events := Step(s, p, t).1;
      && (FullHigh in events <==> s != FullHigh && p > t.fullUpper)
      && (L1Low in events <==> s != L1Low && p < t.l1Lower)
      && (L1High in events <==>
        (s == L1Low && p > t.l1Upper) || (s == FullHigh && p < t.fullLower) || (s == Init && InBand(L1High, p, t)))
      && |events| <= 2 && (|events| == 2 ==> events[0] != events[1])
  {
  }

  // ---------- runs ----------

  /** The readings of a run, each with the thresholds of its time. */
  function Run(ps: seq<(int, Thresholds)>): (PressureState, seq<PressureState>) {
    if |ps| == 0 then (Init, [])
    else
      var (s, events) := Run(ps[..|ps| - 1]);
      var (r, more) := Step(s, ps[|ps| - 1].0, ps[|ps| - 1].1);
      (r, events + more)
  }

  /** From the first reading on, the last event names the state, whatever the thresholds. */
  lemma {:induction false} LastEventNamesState(ps: seq<(int, Thresholds)>)
    ensures var (s, events) := Run(ps);
      if |ps| == 0 then events == [] else |events| > 0 && events[|events| - 1] == s != Init
  {
    if |ps| > 0 {
      LastEventNamesState(ps[..|ps| - 1]);
    }
  }

  function Constant(p: int, t: Thresholds, n: nat): seq<(int, Thresholds)> {
    if n == 0 then [] else Constant(p, t, n - 1) + [(p, t)]
  }

  lemma OneMoreReading(ps: seq<(int, Thresholds)>, p: int, t: Thresholds, n: nat)
    ensures var (s, events) := Run(ps + Constant(p, t, n));
      Run(ps + Constant(p, t, n + 1)) == (Step(s, p, t).0, events + Step(s, p, t).1)
  {
    hide Step;
    var qs := ps + Constant(p, t, n);
    assert ps + Constant(p, t, n + 1) == qs + [(p, t)];
    assert (qs + [(p, t)])[..|qs|] == qs;
  }

  /**
   After any run, a pressure that stays the same, with ordered thresholds, decides the state within two
   readings: the one before where the pressure is in its band, and the one of a first reading otherwise. From
   then on there are no more events.
   */
  lemma {:induction false} ConstantPressure(ps: seq<(int, Thresholds)>, p: int, t: Thresholds, n: nat)
    requires Ordered(t) && n >= 2
    ensures var s := Run(ps).0;
      Run(ps + Constant(p, t, n)).0 == if InBand(s, p, t) then s else Step(Init, p, t).0
    ensures Run(ps + Constant(p, t, n)) == Run(ps + Constant(p, t, 2))
  {
    hide Run;
    if n > 2 {
      ConstantPressure(ps, p, t, n - 1);
      OneMoreReading(ps, p, t, n - 1);
      var (s, events) := Run(ps + Constant(p, t, n - 1));
      RestIsTheBand(s, p, t);
      RestIsTheBand(Step(Init, p, t).0, p, t);
      BandsAreKept(Run(ps).0, p, t);
      assert events + [] == events;
    } else {
      assert ps + Constant(p, t, 0) == ps;
      OneMoreReading(ps, p, t, 0);
      OneMoreReading(ps, p, t, 1);
      BandsAreKept(Run(ps).0, p, t);
    }
  }

  /** The events of the reading k. */
  function EventsOf(ps: seq<(int, Thresholds)>, k: nat): seq<PressureState>
    requires k < |ps|
  {
    Step(Run(ps[..k]).0, ps[k].0, ps[k].1).1
  }

  function StateAfter(ps: seq<(int, Thresholds)>, k: nat): PressureState
    requires k <= |ps|
  {
    Run(ps[..k]).0
  }

  /** A reading below one of the lower thresholds of its time. */
  predicate Drops(ps: seq<(int, Thresholds)>, k: nat)
    requires k < |ps|
  {
    ps[k].0 < ps[k].1.fullLower || ps[k].0 < ps[k].1.l1Lower
  }

  lemma StateStep(ps: seq<(int, Thresholds)>, k: nat)
    requires k < |ps|
    ensures StateAfter(ps, k + 1) == Step(StateAfter(ps, k), ps[k].0, ps[k].1).0
  {
    assert ps[..k + 1][..k] == ps[..k];
  }

  /** Without a drop the full state is kept, and sends nothing. */
  lemma {:induction false} FullIsKept(ps: seq<(int, Thresholds)>, i: nat, k: nat)
    requires i < k <= |ps| && StateAfter(ps, i + 1) == FullHigh && forall j :: i < j < k ==> !Drops(ps, j)
    ensures StateAfter(ps, k) == FullHigh
    decreases k - i
  {
    if k > i + 1 {
      FullIsKept(ps, i, k - 1);
      StateStep(ps, k - 1);
      assert !Drops(ps, k - 1);
    }
  }

  /** Between any two full-load events some reading was below a lower threshold: the alarm cannot chatter. */
  lemma FullEventsAreSeparated(ps: seq<(int, Thresholds)>, i: nat, k: nat)
    requires i < k < |ps| && FullHigh in EventsOf(ps, i) && FullHigh in EventsOf(ps, k)
    ensures exists j :: i < j < k && Drops(ps, j)
  {
    StateStep(ps, i);
    if forall j :: i < j < k ==> !Drops(ps, j) {
      FullIsKept(ps, i, k);
    }
  }
}
