/**
 The three virtual timers of hazard_sensor.c: an edge of the turn signal is sampled a little later, and
 the off and the cancel timer expire when no edge has been accepted for their time.
 */
module HazardTimers {

  /** Ticks between an accepted edge and its sample. */
  const SAMPLE_DELAY: nat := 100

  datatype Timer = SampleTimer | OffTimer | CancelTimer

  /** When the timers expire, where they are armed. */
  datatype Timers = Timers(deadline: map<Timer, nat>)

  // ---------- the callback ----------

  class Edges {
    var vtsample: nat
    var vtoff: nat
    var vtcancel: nat
    var armed: set<Timer>

    ghost function Deadlines(): map<Timer, nat>
      reads this
    {
      map k | k in armed :: if k == SampleTimer then vtsample else if k == OffTimer then vtoff else vtcancel
    }

    /** The end of initHazard: only the cancel timer runs. */
    constructor (now: nat, cancel: nat)
      ensures Deadlines() == map[CancelTimer := now + cancel]
    {
      vtsample, vtoff, vtcancel, armed := 0, 0, now + cancel, {CancelTimer};
    }

    /** HazardPeriodCB: an edge while a sample is pending is ignored; any other starts all three timers anew. */
    method HazardPeriodCB(now: nat, off: nat, cancel: nat)
      modifies this
      ensures Deadlines() == AfterEdge(old(Deadlines()), now, off, cancel)
    {
      if SampleTimer in armed {
        return;
      }
      vtsample := now + SAMPLE_DELAY;
      armed := armed + {SampleTimer};
      if OffTimer in armed {
        armed := armed - {OffTimer};
      }
      vtoff := now + off;
      armed := armed + {OffTimer};
      if CancelTimer in armed {
        armed := armed - {CancelTimer};
      }
      vtcancel := now + cancel;
      armed := armed + {CancelTimer};
    }

    /** The kernel calls a timer's function once, and disarms it. */
    method Expire(k: Timer)
      requires k in armed
      modifies this`armed
      ensures Deadlines() == old(Deadlines()) - {k}
    {
      armed := armed - {k};
    }
  }

  function AfterEdge(d: map<Timer, nat>, now: nat, off: nat, cancel: nat): map<Timer, nat> {
    if SampleTimer in d then d
    else map[SampleTimer := now + SAMPLE_DELAY, OffTimer := now + off, CancelTimer := now + cancel]
  }

  // ---------- runs ----------

  datatype Event = Edge(at: nat) | Expiry(timer: Timer, at: nat)

  /**
   The detector in time: the armed timers, the time, when the last accepted edge was, or else the
   start, and the expiries since then, in order.
   */
  datatype Clock = Clock(deadline: map<Timer, nat>, now: nat, since: nat, edge: bool, expired: seq<(Timer, nat)>)

  function Start(now: nat, cancel: nat): Clock {
    Clock(map[CancelTimer := now + cancel], now, now, false, [])
  }

  /** Time goes on, but past no armed timer; a timer expires at its time. */
  predicate Possible(c: Clock, e: Event) {
    && c.now <= e.at && (forall k :: k in c.deadline ==> e.at <= c.deadline[k])
    && (e.Expiry? ==> e.timer in c.deadline && c.deadline[e.timer] == e.at)
  }

  function After(c: Clock, e: Event, off: nat, cancel: nat): Clock {
    match e
    case Edge(at) =>
      if SampleTimer in c.deadline then c.(now := at)
      else Clock(AfterEdge(c.deadline, at, off, cancel), at, at, true, [])
    case Expiry(k, at) => c.(deadline := c.deadline - {k}, now := at, expired := c.expired + [(k, at)])
  }

  /** A run from the start: the events are possible one after the other. */
  predicate Run(es: seq<Event>, now: nat, off: nat, cancel: nat) {
    |es| == 0 || (Run(es[..|es| - 1], now, off, cancel) &&
      Possible(End(es[..|es| - 1], now, off, cancel), es[|es| - 1]))
  }

  function End(es: seq<Event>, now: nat, off: nat, cancel: nat): Clock {
    if |es| == 0 then Start(now, cancel) else After(End(es[..|es| - 1], now, off, cancel), es[|es| - 1], off, cancel)
  }

  // ---------- what silence brings ----------

  /** The expiries that follow an accepted edge, or the start, if nothing else is accepted. */
  function Schedule(since: nat, edge: bool, off: nat, cancel: nat): seq<(Timer, nat)> {
    if edge then [(SampleTimer, since + SAMPLE_DELAY), (OffTimer, since + off), (CancelTimer, since + cancel)]
    else [(CancelTimer, since + cancel)]
  }

  /** The timers of the schedule that have not expired when n have. */
  function Armed(since: nat, edge: bool, n: nat, off: nat, cancel: nat): map<Timer, nat> {
    if edge && n == 0 then
      map[SampleTimer := since + SAMPLE_DELAY, OffTimer := since + off, CancelTimer := since + cancel]
    else if edge && n == 1 then map[OffTimer := since + off, CancelTimer := since + cancel]
    else if n == (if edge then 2 else 0) then map[CancelTimer := since + cancel]
    else map[]
  }

  /** The expiries so far are the beginning of the schedule, and the armed timers are the rest of it. */
  predicate OnSchedule(c: Clock, off: nat, cancel: nat) {
    && c.expired <= Schedule(c.since, c.edge, off, cancel) && c.since <= c.now
    && c.deadline == Armed(c.since, c.edge, |c.expired|, off, cancel)
  }

  /** Of the armed timers the next one of the schedule is the only one that can expire. */
  lemma NextExpiry(c: Clock, e: Event, off: nat, cancel: nat)
    requires SAMPLE_DELAY < off < cancel && OnSchedule(c, off, cancel) && Possible(c, e) && e.Expiry?
    ensures |c.expired| < |Schedule(c.since, c.edge, off, cancel)|
    ensures (e.timer, e.at) == Schedule(c.since, c.edge, off, cancel)[|c.expired|]
  {
    assert e.timer in c.deadline;
    if c.edge && |c.expired| == 0 {
      assert SampleTimer in c.deadline && c.deadline[SampleTimer] == c.since + SAMPLE_DELAY;
    } else if c.edge && |c.expired| == 1 {
      assert OffTimer in c.deadline && c.deadline[OffTimer] == c.since + off;
    }
  }

  lemma StepOnSchedule(c: Clock, e: Event, off: nat, cancel: nat)
    requires SAMPLE_DELAY < off < cancel && OnSchedule(c, off, cancel) && Possible(c, e)
    ensures OnSchedule(After(c, e, off, cancel), off, cancel)
  {
    if e.Expiry? {
      NextExpiry(c, e, off, cancel);
      var s := Schedule(c.since, c.edge, off, cancel);
      assert s[..|c.expired| + 1] == s[..|c.expired|] + [s[|c.expired|]];
    }
  }

  /**
   In every run, with the sample before the off and the off before the cancel timeout: since the last
   accepted edge the sample, the off and the cancel timer have expired at most once each, in that order,
   and each exactly its time after that edge, so after that much silence; before the first accepted
   edge only the cancel timer can expire, its time after the start.
   */
  lemma {:induction false} ExpiriesFollowTheSchedule(es: seq<Event>, now: nat, off: nat, cancel: nat)
    requires SAMPLE_DELAY < off < cancel && Run(es, now, off, cancel)
    ensures OnSchedule(End(es, now, off, cancel), off, cancel)
  {
    if |es| > 0 {
      hide OnSchedule, Possible, After;
      ExpiriesFollowTheSchedule(es[..|es| - 1], now, off, cancel);
      StepOnSchedule(End(es[..|es| - 1], now, off, cancel), es[|es| - 1], off, cancel);
    } else {
      StartOnSchedule(now, off, cancel);
    }
  }

  lemma StartOnSchedule(now: nat, off: nat, cancel: nat)
    ensures OnSchedule(Start(now, cancel), off, cancel)
  {
  }

  /** An edge is accepted, and starts a new schedule, exactly when the sample of the one before is over. */
  lemma AcceptedEdge(es: seq<Event>, at: nat, now: nat, off: nat, cancel: nat)
    requires SAMPLE_DELAY < off < cancel && Run(es + [Edge(at)], now, off, cancel)
    ensures var before, after := End(es, now, off, cancel), End(es + [Edge(at)], now, off, cancel);
      if before.edge && before.expired == [] then after == before.(now := at)
      else after.edge && after.since == at && after.expired == []
  {
    assert (es + [Edge(at)])[..|es|] == es;
    ExpiriesFollowTheSchedule(es, now, off, cancel);
  }
}
