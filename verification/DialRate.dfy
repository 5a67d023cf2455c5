/** How many dials the loop starts per tick, over any stretch of a run. */
module DialRate {
  import opened Arithmetic
  import opened Registry
  import opened Dial
  import opened DialSafety

  // ------------------------------------------------ within one tick

  ghost predicate BetweenTicks(p: Spawner) { p == Waiting || p == Stopped }

  /** Dials started since the tick, as the spawner counts them. */
  ghost function StartedInTick(p: Spawner): nat
    requires !BetweenTicks(p)
  {
    p.i
  }

  /** The loop variable is within the limit, and below it once a dial is being tested. */
  ghost predicate WithinTick(cfg: Config, p: Spawner)
    requires !BetweenTicks(p)
  {
    StartedInTick(p) <= cfg.PerTick() && (!p.Top? ==> StartedInTick(p) < cfg.PerTick())
  }

  lemma StepCountsDials(cfg: Config, s: State, step: Step)
    requires cfg.Valid() && Enabled(cfg, s, step)
    requires !BetweenTicks(s.spawner) ==> WithinTick(cfg, s.spawner)
    ensures var s' := Apply(cfg, s, step);
            && (!BetweenTicks(s'.spawner) ==> WithinTick(cfg, s'.spawner))
            && (if BetweenTicks(s'.spawner) || BetweenTicks(s.spawner) then |s'.dialers| == |s.dialers|
                else |s'.dialers| - |s.dialers| == StartedInTick(s'.spawner) - StartedInTick(s.spawner))
            && (BetweenTicks(s.spawner) && !BetweenTicks(s'.spawner) ==>
                  s.spawner == Waiting && s'.spawner == Top(0))
  {
    hide Add, Remove;
  }

  /** From a tick on, until the spawner waits again, it has started as many goroutines as its loop
      variable says, and never more than PerTick. */
  lemma {:induction false} DialsPerTick(cfg: Config, run: seq<State>, a: nat, b: nat)
    requires cfg.Valid() && IsRun(cfg, run) && a <= b < |run| && run[a].spawner == Top(0)
    requires forall k :: a <= k <= b ==> !BetweenTicks(run[k].spawner)
    ensures |run[b].dialers| - |run[a].dialers| == StartedInTick(run[b].spawner)
    ensures WithinTick(cfg, run[b].spawner)
    ensures |run[b].dialers| - |run[a].dialers| <= if cfg.rate < 100 then 1 else cfg.rate / 100
    decreases b
  {
    hide Apply;
    if a < b {
      DialsPerTick(cfg, run, a, b - 1);
      assert Next(cfg, run[b - 1], run[b]);
      var step :| Enabled(cfg, run[b - 1], step) && Apply(cfg, run[b - 1], step) == run[b];
      StepCountsDials(cfg, run[b - 1], step);
    }
  }

  // ------------------------------------------------ over many ticks

  /** Ticks of the ticker that the spawner takes after state a, up to state b. */
  ghost function TicksIn(run: seq<State>, a: nat, b: nat): nat
    requires a <= b < |run|
    decreases b
  {
    if a == b then 0
    else TicksIn(run, a, b - 1) + Bit(run[b - 1].spawner == Waiting && run[b].spawner.Top?)
  }

  /** All ticks but the current one may be used up, the current one as far as the loop has come. */
  ghost predicate Rationed(cfg: Config, ticks: nat, dials: int, p: Spawner) {
    if BetweenTicks(p) then dials <= ticks * cfg.PerTick()
    else ticks > 0 && WithinTick(cfg, p) && dials <= (ticks - 1) * cfg.PerTick() + StartedInTick(p)
  }

  lemma {:induction false} StretchIsRationed(cfg: Config, run: seq<State>, a: nat, b: nat)
    requires cfg.Valid() && IsRun(cfg, run) && a <= b < |run| && run[a].spawner == Waiting
    ensures Rationed(cfg, TicksIn(run, a, b), |run[b].dialers| - |run[a].dialers|, run[b].spawner)
    decreases b
  {
    hide Apply;
    if a < b {
      StretchIsRationed(cfg, run, a, b - 1);
      assert Next(cfg, run[b - 1], run[b]);
      var step :| Enabled(cfg, run[b - 1], step) && Apply(cfg, run[b - 1], step) == run[b];
      StepCountsDials(cfg, run[b - 1], step);
      var ticks := TicksIn(run, a, b);
      if ticks > 0 {
        OneMore(ticks - 1, cfg.PerTick());
      }
    }
  }

  /** In every run, from any state in which the spawner waits, at most a hundredth of the rate is
      started per tick, and one dial if that is nothing. */
  lemma DialsPerTicks(cfg: Config, run: seq<State>, a: nat, b: nat)
    requires cfg.Valid() && IsRun(cfg, run) && a <= b < |run| && run[a].spawner == Waiting
    ensures |run[b].dialers| - |run[a].dialers|
            <= TicksIn(run, a, b) * (if cfg.rate < 100 then 1 else cfg.rate / 100)
  {
    hide IsRun, TicksIn;
    StretchIsRationed(cfg, run, a, b);
    var ticks := TicksIn(run, a, b);
    if ticks > 0 {
      OneMore(ticks - 1, cfg.PerTick());
    }
  }

  // ------------------------------------------------ every tick used up

  lemma {:induction false} TicksInPrefix(run: seq<State>, longer: seq<State>, b: nat)
    requires run <= longer && b < |run|
    ensures TicksIn(longer, 0, b) == TicksIn(run, 0, b)
  {
    if b > 0 {
      TicksInPrefix(run, longer, b - 1);
    }
  }

  /** A run that ends in s, with this many ticks. */
  ghost predicate EndsIn(cfg: Config, run: seq<State>, s: State, ticks: nat)
    requires cfg.Valid()
  {
    IsRun(cfg, run) && run[|run| - 1] == s && TicksIn(run, 0, |run| - 1) == ticks
  }

  /** Some run does. */
  ghost predicate Leads(cfg: Config, s: State, ticks: nat)
    requires cfg.Valid()
  {
    exists run :: EndsIn(cfg, run, s, ticks)
  }

  lemma Proceed(cfg: Config, s: State, ticks: nat, step: Step) returns (s': State)
    requires cfg.Valid() && Leads(cfg, s, ticks) && Enabled(cfg, s, step)
    ensures s' == Apply(cfg, s, step)
    ensures Leads(cfg, s', ticks + Bit(s.spawner == Waiting && s'.spawner.Top?))
  {
    hide Apply;
    s' := Apply(cfg, s, step);
    var run :| EndsIn(cfg, run, s, ticks);
    var longer := run + [s'];
    assert Next(cfg, s, s');
    forall i | 0 < i < |longer|
      ensures Next(cfg, longer[i - 1], longer[i])
    {
      assert i < |run| ==> Next(cfg, run[i - 1], run[i]);
    }
    TicksInPrefix(run, longer, |run| - 1);
    assert EndsIn(cfg, longer, s', ticks + Bit(s.spawner == Waiting && s'.spawner.Top?));
  }

  /** All counters are down: every dial so far has failed and returned. */
  ghost predicate Quiet(s: State) { s.active == 0 && s.pending == 0 && s.sem == 0 }

  /** One dial is started. */
  lemma StartOne(cfg: Config, s: State, ticks: nat) returns (s': State)
    requires cfg.Valid() && cfg.target > 0 && cfg.inflight > 0
    requires Leads(cfg, s, ticks) && Quiet(s) && s.spawner.Top? && s.spawner.i < cfg.PerTick()
    ensures Leads(cfg, s', ticks) && s'.spawner == Top(s.spawner.i + 1)
    ensures s'.active == 0 && s'.pending == 1 && s'.sem == 1
    ensures |s'.dialers| == |s.dialers| + 1 && s'.dialers[|s.dialers|].phase == Launched
  {
    hide Leads, AdvanceDialer, AdvanceCloser;
    s' := Proceed(cfg, s, ticks, FirstLoad);
    if s'.spawner.Loaded? {
      s' := Proceed(cfg, s', ticks, SecondLoad);
    }
    s' := Proceed(cfg, s', ticks, Acquire);
    s' := Proceed(cfg, s', ticks, Reserve);
    s' := Proceed(cfg, s', ticks, Launch);
  }

  /** It fails and returns. */
  lemma FailOne(cfg: Config, s: State, ticks: nat, g: nat) returns (s': State)
    requires cfg.Valid() && Leads(cfg, s, ticks) && s.spawner.Top?
    requires g < |s.dialers| && s.dialers[g].phase == Launched
    ensures Leads(cfg, s', ticks) && s'.spawner == s.spawner && |s'.dialers| == |s.dialers|
    ensures s'.active == s.active && s'.pending == s.pending - 1 && s'.sem == s.sem - 1
  {
    hide Leads, Add, Remove, AdvanceCloser;
    s' := Proceed(cfg, s, ticks, DialerStep(g, false));
    s' := Proceed(cfg, s', ticks, DialerStep(g, false));
    s' := Proceed(cfg, s', ticks, DialerStep(g, false));
    s' := Proceed(cfg, s', ticks, DialerStep(g, false));
    s' := Proceed(cfg, s', ticks, DialerStep(g, false));
  }

  /** n dials in one tick, each over before the next. */
  lemma {:induction false} UseTick(cfg: Config, s: State, ticks: nat, n: nat) returns (s': State)
    requires cfg.Valid() && cfg.target > 0 && cfg.inflight > 0 && n <= cfg.PerTick()
    requires Leads(cfg, s, ticks) && Quiet(s) && s.spawner == Top(0)
    ensures Leads(cfg, s', ticks) && Quiet(s') && s'.spawner == Top(n)
    ensures |s'.dialers| == |s.dialers| + n
    decreases n
  {
    hide Leads;
    s' := s;
    if n > 0 {
      s' := UseTick(cfg, s, ticks, n - 1);
      var g := |s'.dialers|;
      s' := StartOne(cfg, s', ticks);
      s' := FailOne(cfg, s', ticks, g);
    }
  }

  /** If anything may be dialed, some run uses every one of its ticks up. */
  lemma {:induction false} TicksCanBeUsedUp(cfg: Config, ticks: nat) returns (s: State)
    requires cfg.Valid() && cfg.target > 0 && cfg.inflight > 0
    ensures Leads(cfg, s, ticks) && Quiet(s) && s.spawner == Waiting
    ensures |s.dialers| == ticks * (if cfg.rate < 100 then 1 else cfg.rate / 100)
  {
    if ticks == 0 {
      s := START;
      assert EndsIn(cfg, [START], START, 0);
    } else {
      hide Leads, LoadFirst, LoadSecond, AdvanceDialer, AdvanceCloser;
      s := TicksCanBeUsedUp(cfg, ticks - 1);
      s := Proceed(cfg, s, ticks - 1, Tick);
      s := UseTick(cfg, s, ticks, cfg.PerTick());
      s := Proceed(cfg, s, ticks, EndOfTick);
      OneMore(ticks - 1, cfg.PerTick());
    }
  }

  // ------------------------------------------------ the documented rate

  /** A stretch of a run, from a state in which the spawner waits, of at most 100 ticks: no more than
      a second passes between the first and the last of them. */
  ghost predicate Second(cfg: Config, run: seq<State>, a: nat, b: nat)
    requires cfg.Valid()
  {
    IsRun(cfg, run) && a <= b < |run| && run[a].spawner == Waiting && TicksIn(run, a, b) <= 100
  }

  /** How many dials can be started in a second, exactly: the rate rounded down to hundreds, and a
      hundred for any rate below that. */
  lemma DialsPerSecondExactly(cfg: Config, x: int)
    requires cfg.Valid() && cfg.target > 0 && cfg.inflight > 0
    ensures (exists run: seq<State>, a: nat, b: nat ::
               Second(cfg, run, a, b) && |run[b].dialers| - |run[a].dialers| >= x)
            <==> x <= if cfg.rate < 100 then 100 else cfg.rate - cfg.rate % 100
  {
    if run: seq<State>, a: nat, b: nat :| Second(cfg, run, a, b) && |run[b].dialers| - |run[a].dialers| >= x {
      DialsPerTicks(cfg, run, a, b);
      MulMonotone(TicksIn(run, a, b), 100, if cfg.rate < 100 then 1 else cfg.rate / 100);
    }
    if x <= if cfg.rate < 100 then 100 else cfg.rate - cfg.rate % 100 {
      var s := TicksCanBeUsedUp(cfg, 100);
      var run :| EndsIn(cfg, run, s, 100);
      assert Second(cfg, run, 0, |run| - 1);
    }
  }

  /** The ticker fires 100 times a second: no such stretch starts more dials than the rate, nor any
      with a negative rate. */
  ghost predicate RateKept(cfg: Config)
    requires cfg.Valid()
  {
    forall run: seq<State>, a: nat, b: nat ::
      Second(cfg, run, a, b) ==> |run[b].dialers| - |run[a].dialers| <= if cfg.rate < 0 then 0 else cfg.rate
  }

  lemma NothingDialed(cfg: Config, run: seq<State>, b: nat)
    requires cfg.Valid() && IsRun(cfg, run) && b < |run| && (cfg.target <= 0 || cfg.inflight == 0)
    ensures run[b].dialers == []
  {
    hide Accounts, StoredAfterAdd, LoadInv, TombstonesExplained, UrlsInTurn, Apply;
    RunKeepsInv(cfg, run[..b + 1]);
  }

  /** The documented limit, at most rate dials per second, is kept in every run exactly when the
      rate is at least 100 or nothing can be dialed at all. */
  lemma RateKeptExactly(cfg: Config)
    requires cfg.Valid()
    ensures RateKept(cfg) <==> cfg.rate >= 100 || cfg.target <= 0 || cfg.inflight == 0
  {
    if cfg.target <= 0 || cfg.inflight == 0 {
      forall run: seq<State>, a: nat, b: nat | Second(cfg, run, a, b)
        ensures |run[b].dialers| - |run[a].dialers| <= if cfg.rate < 0 then 0 else cfg.rate
      {
        NothingDialed(cfg, run, b);
      }
    } else {
      var most := if cfg.rate < 100 then 100 else cfg.rate - cfg.rate % 100;
      DialsPerSecondExactly(cfg, most);
      forall run: seq<State>, a: nat, b: nat | Second(cfg, run, a, b)
        ensures |run[b].dialers| - |run[a].dialers| <= most
      {
        DialsPerSecondExactly(cfg, |run[b].dialers| - |run[a].dialers|);
      }
    }
  }

  // ------------------------------------------------ giving up

  /** In this step the spawner finds the target reached, or all tokens taken. */
  ghost predicate GivesUp(cfg: Config, s: State, step: Step) {
    && Enabled(cfg, s, step)
    && match step
       case FirstLoad => cfg.order == Together && s.active + s.pending >= cfg.target
       case SecondLoad =>
         s.spawner.seen + (if cfg.order == PendingFirst then s.active else s.pending) >= cfg.target
       case Acquire => s.sem >= cfg.inflight
       case _ => false
  }

  /** It starts nothing then before the next tick, although it may have used up only a part of this
      one, and although the target may be missed again or a token free at once. */
  lemma {:induction false} GivesUpUntilNextTick(cfg: Config, run: seq<State>, a: nat, b: nat, step: Step)
    requires cfg.Valid() && IsRun(cfg, run) && a < b < |run|
    requires GivesUp(cfg, run[a], step) && run[a + 1] == Apply(cfg, run[a], step)
    requires TicksIn(run, a + 1, b) == 0
    ensures |run[b].dialers| == |run[a].dialers| && BetweenTicks(run[b].spawner)
    decreases b
  {
    hide AdvanceDialer, AdvanceCloser;
    if a + 1 < b {
      GivesUpUntilNextTick(cfg, run, a, b - 1, step);
      assert Next(cfg, run[b - 1], run[b]);
      var next :| Enabled(cfg, run[b - 1], next) && Apply(cfg, run[b - 1], next) == run[b];
      StepStaysBetweenTicks(cfg, run[b - 1], next);
    }
  }

  lemma StepStaysBetweenTicks(cfg: Config, s: State, step: Step)
    requires cfg.Valid() && Enabled(cfg, s, step) && BetweenTicks(s.spawner)
    ensures var s' := Apply(cfg, s, step);
            && |s'.dialers| == |s.dialers|
            && (BetweenTicks(s'.spawner) || (s.spawner == Waiting && s'.spawner.Top?))
  {
    hide Add, Remove;
  }

  // ------------------------------------------------ the end

  /** The spawner does not come back from the end of its loop. */
  lemma {:induction false} StoppedStays(cfg: Config, run: seq<State>, a: nat, b: nat)
    requires cfg.Valid() && IsRun(cfg, run) && a <= b < |run| && run[a].spawner == Stopped
    ensures run[b].spawner == Stopped && |run[b].dialers| == |run[a].dialers| && run[b].next == run[a].next
    decreases b
  {
    hide AdvanceDialer, AdvanceCloser;
    if a < b {
      StoppedStays(cfg, run, a, b - 1);
      assert Next(cfg, run[b - 1], run[b]);
      var step :| Enabled(cfg, run[b - 1], step) && Apply(cfg, run[b - 1], step) == run[b];
      StepKeepsStopped(cfg, run[b - 1], step);
    }
  }

  lemma StepKeepsStopped(cfg: Config, s: State, step: Step)
    requires cfg.Valid() && Enabled(cfg, s, step) && s.spawner == Stopped
    ensures var s' := Apply(cfg, s, step);
            s'.spawner == Stopped && |s'.dialers| == |s.dialers| && s'.next == s.next
  {
    hide Add, Remove;
  }

  /** Once the context is done and the spawner has seen it, nothing is started any more, in any run
      that goes on from there. */
  lemma NothingAfterStop(cfg: Config, run: seq<State>, a: nat, b: nat)
    requires cfg.Valid() && IsRun(cfg, run) && a < b < |run|
    requires Enabled(cfg, run[a], Stop) && run[a + 1] == Apply(cfg, run[a], Stop)
    ensures |run[b].dialers| == |run[a].dialers| && !Enabled(cfg, run[b], Tick)
  {
    StoppedStays(cfg, run, a + 1, b);
  }
}
