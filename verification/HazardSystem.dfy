/**
 The detector and its timers together: edges of the turn signal, samples with their signals, and expiries, at
 their times.
 */
module HazardSystem {
  import opened Hazard
  import opened HazardTimers

  /** The thresholds, the two timeouts and the time of the start. */
  datatype Config = Config(detect: int, cancelCount: int, off: nat, cancel: nat, start: nat)

  predicate IsConfig(c: Config) { SAMPLE_DELAY < c.off < c.cancel }

  /** An edge, or the expiry of a timer; a sample finds the two signals. */
  datatype Happening =
    | EdgeSeen(at: nat)
    | Sampled(left: bool, right: bool, at: nat)
    | OffExpired(at: nat)
    | CancelExpired(at: nat)

  function EventOf(h: Happening): Event {
    match h
    case EdgeSeen(at) => Edge(at)
    case Sampled(_, _, at) => Expiry(SampleTimer, at)
    case OffExpired(at) => Expiry(OffTimer, at)
    case CancelExpired(at) => Expiry(CancelTimer, at)
  }

  function InputsOf(h: Happening): seq<Input> {
    match h
    case EdgeSeen(_) => []
    case Sampled(left, right, _) => [Sample(left, right)]
    case OffExpired(_) => [Off]
    case CancelExpired(_) => [Cancel]
  }

  /** The detector, the samples matched since the last clear, and the timers. */
  datatype System = System(det: State, seen: nat, clock: Clock)

  /** What one happening makes of it. */
  function NextSystem(s: System, h: Happening, c: Config): (t: System)
    requires Sane(s.det, s.seen)
    ensures Sane(t.det, t.seen)
  {
    var clock := After(s.clock, EventOf(h), c.off, c.cancel);
    if InputsOf(h) == [] then System(s.det, s.seen, clock)
    else
      var x := InputsOf(h)[0];
      StepIsSane(s.det, s.seen, x, c.detect, c.cancelCount);
      System(Step(s.det, x, c.detect, c.cancelCount).0, Count(s.det, s.seen, x, c.cancelCount), clock)
  }

  /** The callbacks: an edge goes to the timers, and an expiry disarms its timer and goes to the detector. */
  method React(sensor: Sensor, edges: Edges, h: Happening, c: Config, ghost s: System)
    requires sensor.Valid() && Sane(s.det, s.seen) && sensor.Value() == s.det && edges.Deadlines() == s.clock.deadline
    requires Possible(s.clock, EventOf(h))
    modifies sensor, sensor.hazArray, edges
    ensures sensor.Valid() && sensor.Value() == NextSystem(s, h, c).det
    ensures edges.Deadlines() == NextSystem(s, h, c).clock.deadline
  {
    hide Step, Sane, Count;
    match h
    case EdgeSeen(at) =>
      edges.HazardPeriodCB(at, c.off, c.cancel);
    case Sampled(left, right, _) =>
      edges.Expire(SampleTimer);
      sensor.TimerFlashSample(left, right, c.detect, c.cancelCount);
    case OffExpired(_) =>
      edges.Expire(OffTimer);
      sensor.TimerFlashOff(c.detect, c.cancelCount);
    case CancelExpired(_) =>
      edges.Expire(CancelTimer);
      sensor.TimerFlashCancel(c.detect, c.cancelCount);
  }

  /** What is reached after the first n happenings of a run. */
  function At(hs: seq<Happening>, n: nat, c: Config): (s: System)
    requires n <= |hs|
    ensures Sane(s.det, s.seen)
  {
    if n == 0 then
      InitialIsSane();
      System(INITIAL, 0, Start(c.start, c.cancel))
    else NextSystem(At(hs, n - 1, c), hs[n - 1], c)
  }

  /** Every happening is possible when it comes. */
  predicate TimedRun(hs: seq<Happening>, n: nat, c: Config)
    requires n <= |hs|
  {
    forall k :: 0 <= k < n ==> Possible(At(hs, k, c).clock, EventOf(hs[k]))
  }

  // ---------- the parts ----------

  function Inputs(hs: seq<Happening>, n: nat): seq<Input>
    requires n <= |hs|
  {
    if n == 0 then [] else Inputs(hs, n - 1) + InputsOf(hs[n - 1])
  }

  function Events(hs: seq<Happening>, n: nat): (es: seq<Event>)
    requires n <= |hs|
    ensures |es| == n
  {
    if n == 0 then [] else Events(hs, n - 1) + [EventOf(hs[n - 1])]
  }

  lemma Next(hs: seq<Happening>, n: nat, c: Config)
    requires 0 < n <= |hs|
    ensures var s, t, xs := At(hs, n - 1, c), At(hs, n, c), InputsOf(hs[n - 1]);
      && t.clock == After(s.clock, EventOf(hs[n - 1]), c.off, c.cancel)
      && |s.det.cells| == NUM_HAZ && s.det.index < NUM_HAZ && |xs| <= 1
      && (|xs| == 0 ==> t.det == s.det && t.seen == s.seen)
      && (|xs| == 1 ==> t.det == Step(s.det, xs[0], c.detect, c.cancelCount).0)
      && (|xs| == 1 ==> t.seen == Count(s.det, s.seen, xs[0], c.cancelCount))
  {
    hide Step, Count, After, LastOnes, Hazard.Sum;
  }

  /** The detector of the system is the detector alone, on the inputs. */
  lemma {:induction false} DetectorPart(hs: seq<Happening>, n: nat, c: Config)
    requires n <= |hs|
    ensures At(hs, n, c).det == Exec(Inputs(hs, n), c.detect, c.cancelCount).0
    ensures At(hs, n, c).seen == Exec(Inputs(hs, n), c.detect, c.cancelCount).1
  {
    hide At, Exec, Step, Count, Sane, After, Possible;
    NoCallbacks([], c.detect, c.cancelCount);
    FirstClock(hs, c);
    if n > 0 {
      DetectorPart(hs, n - 1, c);
      Next(hs, n, c);
      var xs := InputsOf(hs[n - 1]);
      if |xs| == 1 {
        OneMore(Inputs(hs, n - 1), xs[0], c.detect, c.cancelCount);
        assert xs == [xs[0]] && Inputs(hs, n) == Inputs(hs, n - 1) + [xs[0]];
      } else {
        assert Inputs(hs, n - 1) + [] == Inputs(hs, n - 1);
      }
    }
  }

  /** The timers of the system are the timers alone, on the events. */
  lemma {:induction false} TimersPart(hs: seq<Happening>, n: nat, c: Config)
    requires n <= |hs| && TimedRun(hs, n, c)
    ensures Run(Events(hs, n), c.start, c.off, c.cancel)
    ensures At(hs, n, c).clock == End(Events(hs, n), c.start, c.off, c.cancel)
  {
    if n > 0 {
      hide At, Exec, Step, Count, Sane, After, Possible;
      TimersPart(hs, n - 1, c);
      Next(hs, n, c);
      var es := Events(hs, n - 1);
      assert (es + [EventOf(hs[n - 1])])[..n - 1] == es;
    } else {
      FirstClock(hs, c);
    }
  }

  lemma FirstClock(hs: seq<Happening>, c: Config)
    ensures At(hs, 0, c).clock == Start(c.start, c.cancel) && At(hs, 0, c).det == INITIAL && At(hs, 0, c).seen == 0
  {
  }

  lemma {:induction false} ClockOnSchedule(hs: seq<Happening>, n: nat, c: Config)
    requires n <= |hs| && TimedRun(hs, n, c) && IsConfig(c)
    ensures OnSchedule(At(hs, n, c).clock, c.off, c.cancel)
  {
    hide At, Run, End, OnSchedule;
    TimersPart(hs, n, c);
    ExpiriesFollowTheSchedule(Events(hs, n), c.start, c.off, c.cancel);
  }

  // ---------- how H comes about in time ----------

  /** An edge that starts the timers anew. */
  predicate Accepted(hs: seq<Happening>, k: nat, c: Config)
    requires k < |hs|
  {
    hs[k].EdgeSeen? && SampleTimer !in At(hs, k, c).clock.deadline
  }

  /** Between p and r no edge has been accepted. */
  predicate Quiet(hs: seq<Happening>, p: nat, r: nat, c: Config)
    requires r <= |hs|
  {
    forall k :: p < k < r ==> !Accepted(hs, k, c)
  }

  /** The last edge that was accepted, if there has been one. */
  predicate IsLastEdge(hs: seq<Happening>, n: nat, e: nat, c: Config)
    requires n <= |hs|
  {
    var clock := At(hs, n, c).clock;
    clock.edge ==> e < n && Accepted(hs, e, c) && Quiet(hs, e, n, c) && hs[e].at == clock.since
  }

  /** A matched sample that made more than detect of them in one uncleared window. */
  predicate IsFlash(hs: seq<Happening>, k: nat, c: Config)
    requires k < |hs|
  {
    hs[k].Sampled? && hs[k].left && hs[k].right && At(hs, k + 1, c).seen > c.detect
  }

  /**
   After the flash at f an edge p was followed by no other for the off time, and by then the off timer expired, at o.
   */
  predicate Paused(hs: seq<Happening>, n: nat, f: nat, p: nat, o: nat, c: Config)
    requires n <= |hs|
  {
    && f < o < n && IsFlash(hs, f, c)
    && p < o && Accepted(hs, p, c) && Quiet(hs, p, o, c) && hs[o] == OffExpired(hs[p].at + c.off)
  }

  /** The next edge behind that came at r, not before the off time of the edge p, and not after its cancel time. */
  predicate Resumed(hs: seq<Happening>, n: nat, p: nat, o: nat, r: nat, c: Config)
    requires n <= |hs|
  {
    && p < o < r < n && Accepted(hs, r, c) && Quiet(hs, p, r, c)
    && hs[p].at + c.off <= hs[r].at <= hs[p].at + c.cancel
  }

  /** What a run has seen by the time that it is in a pending state. */
  predicate Story(hs: seq<Happening>, n: nat, f: nat, p: nat, o: nat, r: nat, b: nat, c: Config)
    requires n <= |hs|
  {
    var s := At(hs, n, c);
    && (s.det.pend >= PRE1 ==> f < n && IsFlash(hs, f, c))
    && (s.det.pend >= PRE2 ==> Paused(hs, n, f, p, o, c))
    && (s.det.pend >= PRE2 ==> Resumed(hs, n, p, o, r, c) || StillQuiet(hs, n, p, o, c))
    && (s.det.pend == PRE3 ==> Resumed(hs, n, p, o, r, c) && r < b < n && IsFlash(hs, b, c))
  }

  /** No edge has been accepted since the off timer expired, and only the cancel timer is armed. */
  predicate StillQuiet(hs: seq<Happening>, n: nat, p: nat, o: nat, c: Config)
    requires n <= |hs|
  {
    var clock := At(hs, n, c).clock;
    && p < o < n && Quiet(hs, p, n, c) && clock.edge && clock.since == hs[p].at
    && |clock.expired| == 2 && clock.now >= hs[p].at + c.off
  }

  lemma {:induction false} LastEdge(hs: seq<Happening>, n: nat, c: Config) returns (e: nat)
    requires n <= |hs| && TimedRun(hs, n, c)
    ensures IsLastEdge(hs, n, e, c)
  {
    hide At, Possible, Sane;
    e := 0;
    FirstClock(hs, c);
    if n > 0 {
      e := LastEdge(hs, n - 1, c);
      Next(hs, n, c);
      if Accepted(hs, n - 1, c) { e := n - 1; }
    }
  }

  /** The edge, by which nothing of the detector changes. */
  lemma StoryGoesOnAtEdge(hs: seq<Happening>, n: nat, f: nat, p: nat, o: nat, r: nat, b: nat, c: Config)
    returns (r': nat)
    requires 0 < n <= |hs| && TimedRun(hs, n, c) && IsConfig(c) && hs[n - 1].EdgeSeen?
    requires Story(hs, n - 1, f, p, o, r, b, c)
    ensures Story(hs, n, f, p, o, r', b, c)
  {
    hide At, Sane, Step, Count, IsFlash, Schedule;
    Next(hs, n, c);
    ClockOnSchedule(hs, n - 1, c);
    var clock := At(hs, n - 1, c).clock;
    assert Possible(clock, EventOf(hs[n - 1]));
    r' := r;
    if At(hs, n, c).det.pend >= PRE2 && StillQuiet(hs, n - 1, p, o, c) {
      assert clock.deadline == map[CancelTimer := clock.since + c.cancel];
      assert CancelTimer in clock.deadline && SampleTimer !in clock.deadline;
      r' := n - 1;
    }
  }

  /** The sample: it is not one of the schedule before the pause, so an edge has come since. */
  lemma StoryGoesOnAtSample(hs: seq<Happening>, n: nat, f: nat, p: nat, o: nat, r: nat, b: nat, c: Config)
    returns (f': nat, b': nat)
    requires 0 < n <= |hs| && TimedRun(hs, n, c) && IsConfig(c) && hs[n - 1].Sampled?
    requires Story(hs, n - 1, f, p, o, r, b, c)
    ensures Story(hs, n, f', p, o, r, b', c)
  {
    hide At, Sane, Step, Count, Possible;
    Next(hs, n, c);
    ClockOnSchedule(hs, n - 1, c);
    var s := At(hs, n - 1, c);
    assert Possible(s.clock, EventOf(hs[n - 1]));
    NextExpiry(s.clock, EventOf(hs[n - 1]), c.off, c.cancel);
    assert !StillQuiet(hs, n - 1, p, o, c);
    var x := InputsOf(hs[n - 1])[0];
    Transition(s.det, s.seen, x, c.detect, c.cancelCount);
    f', b' := f, b;
    if s.det.pend == PRE0 && At(hs, n, c).det.pend == PRE1 { f' := n - 1; }
    if s.det.pend == PRE2 && At(hs, n, c).det.pend == PRE3 { b' := n - 1; }
  }

  /** The off timer: it expires once after the last edge, and then that edge was the off time ago. */
  lemma StoryGoesOnAtOff(hs: seq<Happening>, n: nat, f: nat, p: nat, o: nat, r: nat, b: nat, c: Config)
    returns (p': nat, o': nat)
    requires 0 < n <= |hs| && TimedRun(hs, n, c) && IsConfig(c) && hs[n - 1].OffExpired?
    requires Story(hs, n - 1, f, p, o, r, b, c)
    ensures Story(hs, n, f, p', o', r, b, c)
  {
    hide At, Sane, Step, Count, Possible, IsFlash;
    Next(hs, n, c);
    ClockOnSchedule(hs, n - 1, c);
    var s := At(hs, n - 1, c);
    assert Possible(s.clock, EventOf(hs[n - 1]));
    NextExpiry(s.clock, EventOf(hs[n - 1]), c.off, c.cancel);
    assert s.clock.edge && |s.clock.expired| == 1;
    assert !StillQuiet(hs, n - 1, p, o, c);
    OffStep(s.det, c.detect, c.cancelCount);
    p', o' := p, o;
    if s.det.pend == PRE1 {
      p' := LastEdge(hs, n - 1, c);
      o' := n - 1;
    }
  }

  lemma OffStep(s: State, detect: int, cancel: int)
    requires |s.cells| == NUM_HAZ && s.index < NUM_HAZ
    ensures Step(s, Off, detect, cancel).0.pend == if s.pend == PRE1 then PRE2 else s.pend
    ensures Step(s, Cancel, detect, cancel).0.pend == PRE0
  {
  }

  /**
   In every run, with the sample before the off and the off before the cancel timeout: H comes about only after a flash,
   then a pause in which no edge is accepted, at least as long as the off timeout and no longer than the cancel timeout,
   and then another flash, where each flash is the last of more than detect matched samples in one uncleared window.
   */
  lemma {:induction false} HazardNeedsPause(hs: seq<Happening>, n: nat, c: Config)
    returns (f: nat, p: nat, o: nat, r: nat, b: nat)
    requires n <= |hs| && TimedRun(hs, n, c) && IsConfig(c)
    ensures Story(hs, n, f, p, o, r, b, c)
    ensures At(hs, n, c).det.user == H <==> At(hs, n, c).det.pend == PRE3
  {
    hide At, Sane, Step, Count, Possible, IsFlash, Story;
    f, p, o, r, b := 0, 0, 0, 0, 0;
    if n == 0 {
      FirstClock(hs, c);
      NoStory(hs, 0, f, p, o, r, b, c);
    } else {
      f, p, o, r, b := HazardNeedsPause(hs, n - 1, c);
      match hs[n - 1]
      case EdgeSeen(_) =>
        r := StoryGoesOnAtEdge(hs, n, f, p, o, r, b, c);
      case Sampled(_, _, _) =>
        f, b := StoryGoesOnAtSample(hs, n, f, p, o, r, b, c);
      case OffExpired(_) =>
        p, o := StoryGoesOnAtOff(hs, n, f, p, o, r, b, c);
      case CancelExpired(_) =>
        Next(hs, n, c);
        OffStep(At(hs, n - 1, c).det, c.detect, c.cancelCount);
        NoStory(hs, n, f, p, o, r, b, c);
    }
    UserIsPend(At(hs, n, c));
  }

  lemma NoStory(hs: seq<Happening>, n: nat, f: nat, p: nat, o: nat, r: nat, b: nat, c: Config)
    requires n <= |hs| && At(hs, n, c).det.pend == PRE0
    ensures Story(hs, n, f, p, o, r, b, c)
  {
    hide At, Sane;
  }

  lemma UserIsPend(s: System)
    requires Sane(s.det, s.seen)
    ensures s.det.user == H <==> s.det.pend == PRE3
  {
  }
}
