/** The overshoot bound of the dial protocol is exact: runs that reach it, for every
    configuration, and the condition under which the documented target is kept. */
module DialTightness {
  import opened Counting
  import opened Registry
  import opened Dial
  import opened DialSafety

  lemma StartReachable(cfg: Config)
    requires cfg.Valid()
    ensures Reachable(cfg, START)
  {
    assert IsRun(cfg, [START]);
  }

  lemma Advance(cfg: Config, s: State, step: Step) returns (s': State)
    requires cfg.Valid() && Reachable(cfg, s) && Enabled(cfg, s, step)
    ensures s' == Apply(cfg, s, step) && Reachable(cfg, s')
  {
    s' := Apply(cfg, s, step);
    var run :| IsRun(cfg, run) && run[|run| - 1] == s;
    var longer := run + [s'];
    forall i | 0 < i < |longer|
      ensures Next(cfg, longer[i - 1], longer[i])
    {
      assert i < |run| ==> Next(cfg, run[i - 1], run[i]);
    }
    assert IsRun(cfg, longer);
  }

  /** No close callback is under way, no tombstone is left, and each dial goroutine has not
      begun, is stored but not counted, or is done. */
  ghost predicate Settled(s: State) {
    && s.reg.closed == {}
    && (forall c :: c in s.closers ==> c.phase == Closed)
    && (forall d :: d in s.dialers ==> d.phase in {Launched, Stored, Done})
  }

  /** Settled, and the spawner is about to test the target. */
  ghost predicate Poised(cfg: Config, s: State)
    requires cfg.Valid()
  {
    Reachable(cfg, s) && Settled(s) && s.spawner.Top?
  }

  /** In a settled state the shared counters follow from the load and the uncredited number. */
  lemma SettledCounters(cfg: Config, s: State)
    requires cfg.Valid() && Reachable(cfg, s) && Settled(s)
    requires !s.spawner.Acquired? && !s.spawner.Reserved?
    ensures s.active == Load(s) - Uncredited(s)
    ensures s.pending == Uncredited(s) == s.sem
  {
    ReachableInv(cfg, s);
    CountNone(s.closers, IsRemoved);
    CountSplit(s.dialers, InDial, IsStored, HoldsToken);
    CountSplit(s.dialers, InDial, IsStored, NotDone);
  }

  /** One dial goroutine runs to its end. */
  lemma FinishOne(cfg: Config, s: State, g: nat) returns (s': State)
    requires cfg.Valid() && Reachable(cfg, s) && Settled(s)
    requires g < |s.dialers| && s.dialers[g].phase != Done
    ensures Reachable(cfg, s') && Settled(s') && s'.spawner == s.spawner
    ensures Load(s') == Load(s) && Uncredited(s') == Uncredited(s) - 1
  {
    assert s.dialers[g] in s.dialers;
    if s.dialers[g].phase == Launched {
      s' := GetStored(cfg, s, g);
      s' := FinishStored(cfg, s', g);
    } else {
      s' := FinishStored(cfg, s, g);
    }
  }

  /** A goroutine that has stored its connection counts it and returns. */
  lemma FinishStored(cfg: Config, s: State, g: nat) returns (s': State)
    requires cfg.Valid() && Reachable(cfg, s) && Settled(s)
    requires g < |s.dialers| && s.dialers[g].phase == Stored
    ensures Reachable(cfg, s') && Settled(s') && s'.spawner == s.spawner
    ensures Load(s') == Load(s) && Uncredited(s') == Uncredited(s) - 1
  {
    hide Count;
    s' := Advance(cfg, s, DialerStep(g, true));
    s' := Advance(cfg, s', DialerStep(g, true));
    s' := Advance(cfg, s', DialerStep(g, true));
    s' := Advance(cfg, s', DialerStep(g, true));
    var done := Dialer(s.dialers[g].url, Done);
    assert s'.dialers == s.dialers[g := done];
    DialerCounts(s.dialers, g, done);
  }

  /** A launched goroutine dials and stores its connection. */
  lemma GetStored(cfg: Config, s: State, g: nat) returns (s': State)
    requires cfg.Valid() && Reachable(cfg, s) && Settled(s)
    requires g < |s.dialers| && s.dialers[g].phase == Launched
    ensures Reachable(cfg, s') && Settled(s')
    ensures s'.spawner == s.spawner && s'.closers == s.closers
    ensures s'.dialers == s.dialers[g := Dialer(s.dialers[g].url, Stored)]
    ensures s'.reg.conns == s.reg.conns + [g] && g !in s.reg.conns
    ensures Load(s') == Load(s) && Uncredited(s') == Uncredited(s)
  {
    hide Count;
    ReachableInv(cfg, s);
    var s1 := Advance(cfg, s, DialerStep(g, true));
    var s2 := Advance(cfg, s1, DialerStep(g, true));
    s' := Advance(cfg, s2, DialerStep(g, true));
    assert s'.dialers == s.dialers[g := Dialer(s.dialers[g].url, Stored)];
    DialerCounts(s.dialers, g, s'.dialers[g]);
  }

  lemma {:induction false} FinishMany(cfg: Config, s: State, j: nat) returns (s': State)
    requires cfg.Valid() && Reachable(cfg, s) && Settled(s) && j <= Uncredited(s)
    ensures Reachable(cfg, s') && Settled(s') && s'.spawner == s.spawner
    ensures Load(s') == Load(s) && Uncredited(s') == Uncredited(s) - j
    decreases j
  {
    s' := s;
    if j > 0 {
      var g: nat;
      if DialsInProgress(s) > 0 {
        g := CountWitness(s.dialers, InDial);
      } else {
        g := CountWitness(s.dialers, IsStored);
      }
      s' := FinishOne(cfg, s, g);
      s' := FinishMany(cfg, s', j - 1);
    }
  }

  /** The spawner is about to make the first load, in a new tick if this one is used up. */
  lemma ToFirstLoad(cfg: Config, s: State) returns (s': State)
    requires cfg.Valid() && Reachable(cfg, s) && s.spawner.Top?
    ensures Reachable(cfg, s') && s'.spawner.Top? && s'.spawner.i < cfg.PerTick()
    ensures s' == s.(spawner := s'.spawner)
  {
    s' := s;
    if s.spawner.i >= cfg.PerTick() {
      s' := Advance(cfg, s', EndOfTick);
      s' := Advance(cfg, s', Tick);
    }
  }

  /** Whatever the order of the loads, the spawner admits a dial if nothing happens between them. */
  lemma Admit(cfg: Config, s: State) returns (s': State)
    requires cfg.Valid() && Reachable(cfg, s) && s.spawner.Top? && s.active + s.pending < cfg.target
    ensures Reachable(cfg, s') && s'.spawner.Admitted? && s' == s.(spawner := s'.spawner)
  {
    s' := ToFirstLoad(cfg, s);
    s' := Advance(cfg, s', FirstLoad);
    if s'.spawner.Loaded? {
      s' := Advance(cfg, s', SecondLoad);
    }
  }

  /** An admitted dial is started. */
  lemma StartDial(cfg: Config, s: State) returns (s': State)
    requires cfg.Valid() && Reachable(cfg, s) && s.spawner.Admitted? && s.sem < cfg.inflight
    ensures Reachable(cfg, s') && s'.spawner.Top?
    ensures s' == s.(spawner := s'.spawner, next := s.next + 1, pending := s.pending + 1, sem := s.sem + 1,
                     dialers := s.dialers + [Dialer(s.next % cfg.urls, Launched)])
    ensures Load(s') == Load(s) + 1 && Uncredited(s') == Uncredited(s) + 1
  {
    hide Count;
    s' := Advance(cfg, s, Acquire);
    s' := Advance(cfg, s', Reserve);
    var url := s'.spawner.url;
    s' := Advance(cfg, s', Launch);
    LaunchCounts(s.dialers, url);
  }

  /** While the spawner is between its two loads, j goroutines finish: both loads miss them, so a
      load that is less than j over the target still admits a dial. */
  lemma Race(cfg: Config, s: State, j: nat) returns (s': State)
    requires cfg.Valid() && cfg.order == ActiveFirst && Poised(cfg, s)
    requires j <= Uncredited(s) && Load(s) - j < cfg.target && Uncredited(s) - j < cfg.inflight
    ensures Poised(cfg, s')
    ensures Load(s') == Load(s) + 1 && Uncredited(s') == Uncredited(s) - j + 1
    ensures |s'.dialers| > 0 && s'.dialers[|s'.dialers| - 1].phase == Launched
  {
    SettledCounters(cfg, s);
    s' := ToFirstLoad(cfg, s);
    s' := Advance(cfg, s', FirstLoad);
    s' := FinishMany(cfg, s', j);
    SettledCounters(cfg, s');
    s' := Advance(cfg, s', SecondLoad);
    s' := StartDial(cfg, s');
  }

  /** Below the target, whatever the order of the loads, the spawner alone starts a dial. */
  lemma Spawn(cfg: Config, s: State) returns (s': State)
    requires cfg.Valid() && Poised(cfg, s) && Load(s) < cfg.target && Uncredited(s) < cfg.inflight
    ensures Poised(cfg, s')
    ensures Load(s') == Load(s) + 1 && Uncredited(s') == Uncredited(s) + 1
    ensures |s'.dialers| > 0 && s'.dialers[|s'.dialers| - 1].phase == Launched
  {
    SettledCounters(cfg, s);
    s' := Admit(cfg, s);
    s' := StartDial(cfg, s');
  }

  /** A launched goroutine stores its connection, and a close callback removes and uncounts it
      before the goroutine counts it. */
  lemma CloseBeforeCount(cfg: Config, s: State, g: nat) returns (s': State)
    requires cfg.Valid() && Poised(cfg, s) && g < |s.dialers| && s.dialers[g].phase == Launched
    ensures Poised(cfg, s')
    ensures Load(s') == Load(s) - 1 && Uncredited(s') == Uncredited(s)
  {
    hide Count;
    var s1 := GetStored(cfg, s, g);
    var k := |s1.closers|;
    assert IndexOf(s1.reg.conns, g) == |s.reg.conns|;
    s' := Advance(cfg, s1, Close(g));
    s' := Advance(cfg, s', CloserStep(k));
    s' := Advance(cfg, s', CloserStep(k));
    s' := Advance(cfg, s', CloserStep(k));
    s' := Advance(cfg, s', CloserStep(k));
    assert s'.closers == s.closers + [Closer(g, Closed)];
    assert |s'.reg.conns| == |s.reg.conns|;
  }

  /** Some poised state has this load and this uncredited number. */
  ghost predicate CanReach(cfg: Config, load: int, uncredited: int)
    requires cfg.Valid()
  {
    exists s :: Poised(cfg, s) && Load(s) == load && Uncredited(s) == uncredited
  }

  lemma CanStart(cfg: Config)
    requires cfg.Valid()
    ensures CanReach(cfg, 0, 0)
  {
    StartReachable(cfg);
    var s := Advance(cfg, START, Tick);
    assert Poised(cfg, s);
  }

  lemma CanRace(cfg: Config, load: int, uncredited: int, j: nat)
    requires cfg.Valid() && cfg.order == ActiveFirst && CanReach(cfg, load, uncredited)
    requires j <= uncredited && load - j < cfg.target && uncredited - j < cfg.inflight
    ensures CanReach(cfg, load + 1, uncredited - j + 1)
  {
    var s :| Poised(cfg, s) && Load(s) == load && Uncredited(s) == uncredited;
    var s' := Race(cfg, s, j);
  }

  /** Below the target the load can be raised by one, with one goroutine more under way. */
  lemma CanSpawn(cfg: Config, load: int, uncredited: int)
    requires cfg.Valid() && CanReach(cfg, load, uncredited) && load < cfg.target && uncredited < cfg.inflight
    ensures CanReach(cfg, load + 1, uncredited + 1)
  {
    var s :| Poised(cfg, s) && Load(s) == load && Uncredited(s) == uncredited;
    var s' := Spawn(cfg, s);
  }

  /** Or not at all: the connection of the new goroutine is closed before it is counted. */
  lemma CanHold(cfg: Config, load: int, uncredited: int)
    requires cfg.Valid() && CanReach(cfg, load, uncredited) && load < cfg.target && uncredited < cfg.inflight
    ensures CanReach(cfg, load, uncredited + 1)
  {
    var s :| Poised(cfg, s) && Load(s) == load && Uncredited(s) == uncredited;
    var s1 := Spawn(cfg, s);
    var s2 := CloseBeforeCount(cfg, s1, |s1.dialers| - 1);
  }

  /** The load can be raised to anything below the target, with all goroutines finished. */
  lemma {:induction false} CanFill(cfg: Config, load: nat)
    requires cfg.Valid() && cfg.inflight > 0 && load < cfg.target
    ensures CanReach(cfg, load, 0)
  {
    if load == 0 {
      CanStart(cfg);
    } else {
      CanFill(cfg, load - 1);
      CanSpawn(cfg, load - 1, 0);
      var s :| Poised(cfg, s) && Load(s) == load && Uncredited(s) == 1;
      var s' := FinishMany(cfg, s, 1);
      assert Poised(cfg, s');
    }
  }

  /** At any load below the target, all tokens can be held by goroutines whose connection was
      closed before it was counted. */
  lemma {:induction false} CanHoldTokens(cfg: Config, load: nat, tokens: nat)
    requires cfg.Valid() && load < cfg.target && tokens <= cfg.inflight && cfg.inflight > 0
    ensures CanReach(cfg, load, tokens)
  {
    if tokens == 0 {
      CanFill(cfg, load);
    } else {
      CanHoldTokens(cfg, load, tokens - 1);
      CanHold(cfg, load, tokens - 1);
    }
  }

  /** One race after another: the x-th needs x goroutines that can finish in time. */
  lemma {:induction false} CanOvershoot(cfg: Config, x: nat)
    requires cfg.Valid() && cfg.order == ActiveFirst && cfg.target > 0 && Tri(x) + 1 <= cfg.inflight
    ensures CanReach(cfg, cfg.target + x, cfg.inflight - Tri(x))
  {
    if x == 0 {
      CanHoldTokens(cfg, cfg.target - 1, cfg.inflight - 1);
      CanSpawn(cfg, cfg.target - 1, cfg.inflight - 1);
    } else {
      TriMonotone(x - 1, x);
      TriAtLeast(x);
      CanOvershoot(cfg, x - 1);
      CanRace(cfg, cfg.target + x - 1, cfg.inflight - Tri(x - 1), x);
    }
  }

  /** The exact overshoot: the program can hold x connections and dials more than the target
      exactly when x(x-1)/2 dials fit into the limit besides one. */
  lemma OvershootExactly(cfg: Config, x: nat)
    requires cfg.Valid() && cfg.order == ActiveFirst && x >= 1
    ensures (exists s :: Reachable(cfg, s) && Overshoot(cfg, s) >= x)
            <==> cfg.target > 0 && x * (x - 1) <= 2 * (cfg.inflight - 1)
  {
    TriClosedForm(x);
    if s :| Reachable(cfg, s) && Overshoot(cfg, s) >= x {
      ReachableInv(cfg, s);
      TriMonotone(x, Overshoot(cfg, s));
      assert s.reg.conns == [] || s.reg.conns[0] in s.reg.conns;
    }
    if cfg.target > 0 && Tri(x) + 1 <= cfg.inflight {
      CanOvershoot(cfg, x);
    }
  }

  /** All of it can be open connections: with nothing under way any more, the same excess. */
  lemma OpenOvershootExactly(cfg: Config, x: nat)
    requires cfg.Valid() && cfg.order == ActiveFirst && x >= 1
    ensures (exists s :: Reachable(cfg, s) && Quiescent(s) && |s.reg.conns| >= Goal(cfg) + x)
            <==> cfg.target > 0 && x * (x - 1) <= 2 * (cfg.inflight - 1)
  {
    TriClosedForm(x);
    if s :| Reachable(cfg, s) && Quiescent(s) && |s.reg.conns| >= Goal(cfg) + x {
      assert Overshoot(cfg, s) >= x;
      OvershootExactly(cfg, x);
    }
    if cfg.target > 0 && Tri(x) + 1 <= cfg.inflight {
      CanOvershoot(cfg, x);
      var s :| Poised(cfg, s) && Load(s) == cfg.target + x && Uncredited(s) == cfg.inflight - Tri(x);
      var s' := FinishMany(cfg, s, Uncredited(s));
      AllFinished(s');
    }
  }

  lemma AllFinished(s: State)
    requires Settled(s) && s.spawner.Top? && Uncredited(s) == 0
    ensures Quiescent(s) && Load(s) == |s.reg.conns|
  {
    CountZero(s.dialers, InDial);
    CountZero(s.dialers, IsStored);
  }

  /** The documented promise, open plus in-progress connections at most the target, holds in
      every run exactly when nothing can be dialed or the loads are not split active-first. */
  lemma TargetKeptExactly(cfg: Config)
    requires cfg.Valid()
    ensures (forall s :: Reachable(cfg, s) ==> Load(s) <= Goal(cfg))
            <==> cfg.target <= 0 || cfg.inflight == 0 || cfg.order != ActiveFirst
  {
    if cfg.order != ActiveFirst {
      forall s | Reachable(cfg, s)
        ensures Load(s) <= Goal(cfg)
      {
        OtherOrdersKeepTheTarget(cfg, s);
      }
    } else {
      OvershootExactly(cfg, 1);
    }
  }

  /** With the default limit of 200 dials in flight the worst overshoot is 20. */
  lemma DefaultLimit(cfg: Config)
    requires cfg.Valid() && cfg.order == ActiveFirst && cfg.target > 0 && cfg.inflight == 200
    ensures forall s :: Reachable(cfg, s) ==> Overshoot(cfg, s) <= 20
    ensures exists s :: Reachable(cfg, s) && Overshoot(cfg, s) >= 20
  {
    OvershootExactly(cfg, 20);
    OvershootExactly(cfg, 21);
  }

  /** A remove can be counted before its add. How far `active` falls below zero is exact, in any
      order of the loads: by x exactly when something may be dialed and x dials may be in flight. */
  lemma ActiveBelowExactly(cfg: Config, x: nat)
    requires cfg.Valid() && x >= 1
    ensures (exists s :: Reachable(cfg, s) && s.active + x <= 0) <==> cfg.target > 0 && x <= cfg.inflight
  {
    if s :| Reachable(cfg, s) && s.active + x <= 0 {
      ReachableInv(cfg, s);
      UncreditedBounds(cfg, s);
    }
    if cfg.target > 0 && x <= cfg.inflight {
      CanHoldTokens(cfg, 0, x);
      var s :| Poised(cfg, s) && Load(s) == 0 && Uncredited(s) == x;
      SettledCounters(cfg, s);
    }
  }
}
