/** How large the counter of pending dials can become. A goroutine gives its token back before it
    lowers `pending`, so the limit on dials in flight does not bound the counter. */
module DialPending {
  import opened Counting
  import opened Registry
  import opened Dial
  import opened DialSafety
  import opened DialTightness

  /** What the admission test leaves room for: `active` is never below zero by more than the limit
      on dials in flight, and only the spawner raises `pending`. */
  ghost predicate PendingInv(cfg: Config, s: State) {
    && s.pending <= Goal(cfg) + cfg.inflight
    && (s.spawner.Loaded? ==>
          cfg.order != Together
          && (if cfg.order == ActiveFirst then s.spawner.seen + cfg.inflight >= 0 else s.pending <= s.spawner.seen))
    && (s.spawner.Admitted? || s.spawner.Acquired? ==> s.pending < Goal(cfg) + cfg.inflight)
  }

  lemma StepKeepsPending(cfg: Config, s: State, step: Step)
    requires cfg.Valid() && Enabled(cfg, s, step) && Accounts(cfg, s) && PendingInv(cfg, s)
    ensures PendingInv(cfg, Apply(cfg, s, step))
  {
    hide Count, Add, Remove;
    UncreditedBounds(cfg, s);
  }

  lemma {:induction false} RunKeepsPending(cfg: Config, run: seq<State>)
    requires cfg.Valid() && IsRun(cfg, run)
    ensures PendingInv(cfg, run[|run| - 1])
  {
    hide Apply, Inv;
    if |run| > 1 {
      var front := run[..|run| - 1];
      var s := front[|front| - 1];
      RunKeepsPending(cfg, front);
      RunKeepsAccounts(cfg, front);
      assert Next(cfg, run[|run| - 2], run[|run| - 1]);
      var step :| Enabled(cfg, s, step) && Apply(cfg, s, step) == run[|run| - 1];
      StepKeepsPending(cfg, s, step);
    }
  }

  lemma RunKeepsAccounts(cfg: Config, run: seq<State>)
    requires cfg.Valid() && IsRun(cfg, run)
    ensures Accounts(cfg, run[|run| - 1])
  {
    RunKeepsInv(cfg, run);
  }

  // ------------------------------------------------ a run that gets there

  /** No connection is stored or remembered, and the spawner is about to test the target. */
  ghost predicate Empty(cfg: Config, s: State)
    requires cfg.Valid()
  {
    Reachable(cfg, s) && s.spawner.Top? && s.reg == Reg([], {})
  }

  /** A dial fails and its goroutine has given its token back, but is still pending. */
  lemma FailedDial(cfg: Config, s: State) returns (s': State)
    requires cfg.Valid() && Empty(cfg, s) && s.active + s.pending < cfg.target && s.sem < cfg.inflight
    ensures Empty(cfg, s') && s'.active == s.active && s'.pending == s.pending + 1 && s'.sem == s.sem
  {
    hide Reachable, Add, Remove, AdvanceCloser;
    var g := |s.dialers|;
    s' := Admit(cfg, s);
    s' := StartDial(cfg, s');
    s' := Advance(cfg, s', DialerStep(g, false));
    s' := Advance(cfg, s', DialerStep(g, false));
    s' := Advance(cfg, s', DialerStep(g, false));
    s' := Advance(cfg, s', DialerStep(g, false));
  }

  lemma {:induction false} FailedDials(cfg: Config, n: nat) returns (s: State)
    requires cfg.Valid() && n < cfg.target && cfg.inflight > 0
    ensures Empty(cfg, s) && s.active == 0 && s.pending == n && s.sem == 0
  {
    if n == 0 {
      StartReachable(cfg);
      s := Advance(cfg, START, Tick);
    } else {
      s := FailedDials(cfg, n - 1);
      s := FailedDial(cfg, s);
    }
  }

  /** A goroutine has stored its connection, and a close callback has removed and uncounted it. */
  lemma ClosedDial(cfg: Config, s: State) returns (s': State)
    requires cfg.Valid() && Empty(cfg, s) && s.active + s.pending < cfg.target && s.sem < cfg.inflight
    ensures Empty(cfg, s')
    ensures s'.active == s.active - 1 && s'.pending == s.pending + 1 && s'.sem == s.sem + 1
    ensures |s'.dialers| > 0 && s'.dialers[|s'.dialers| - 1].phase == Stored
  {
    hide Reachable;
    var g, k := |s.dialers|, |s.closers|;
    s' := Admit(cfg, s);
    s' := StartDial(cfg, s');
    s' := Advance(cfg, s', DialerStep(g, true));
    s' := Advance(cfg, s', DialerStep(g, true));
    s' := Advance(cfg, s', DialerStep(g, true));
    s' := Advance(cfg, s', Close(g));
    s' := Advance(cfg, s', CloserStep(k));
    s' := Advance(cfg, s', CloserStep(k));
  }

  /** `pending` has passed the target by almost as much as `active` has fallen below zero. */
  lemma {:induction false} ClosedDials(cfg: Config, n: nat) returns (s: State)
    requires cfg.Valid() && cfg.target > 0 && cfg.inflight > 0 && n <= cfg.inflight
    ensures Empty(cfg, s) && s.active + n == 0 && s.pending == cfg.target - 1 + n && s.sem == n
    ensures n > 0 ==> |s.dialers| > 0 && s.dialers[|s.dialers| - 1].phase == Stored
  {
    if n == 0 {
      s := FailedDials(cfg, cfg.target - 1);
    } else {
      s := ClosedDials(cfg, n - 1);
      s := ClosedDial(cfg, s);
    }
  }

  /** One more dial is admitted, and a goroutine frees the token for it. */
  lemma PendingCanReach(cfg: Config) returns (s: State)
    requires cfg.Valid() && cfg.target > 0 && cfg.inflight > 0
    ensures Reachable(cfg, s) && s.pending == cfg.target + cfg.inflight
  {
    hide Reachable, Add, Remove, AdvanceCloser;
    s := ClosedDials(cfg, cfg.inflight);
    var g := |s.dialers| - 1;
    s := Admit(cfg, s);
    s := Advance(cfg, s, DialerStep(g, true));
    s := Advance(cfg, s, DialerStep(g, true));
    s := Advance(cfg, s, DialerStep(g, true));
    s := Advance(cfg, s, Acquire);
    s := Advance(cfg, s, Reserve);
  }

  /** The exact bound, in any order of the loads: not the limit on dials in flight, but that and the
      target together. */
  lemma PendingExactly(cfg: Config, x: nat)
    requires cfg.Valid() && x >= 1
    ensures (exists s :: Reachable(cfg, s) && s.pending >= x)
            <==> cfg.target > 0 && cfg.inflight > 0 && x <= cfg.target + cfg.inflight
  {
    if s :| Reachable(cfg, s) && s.pending >= x {
      ReachableInv(cfg, s);
      var run :| IsRun(cfg, run) && run[|run| - 1] == s;
      RunKeepsPending(cfg, run);
    }
    if cfg.target > 0 && cfg.inflight > 0 && x <= cfg.target + cfg.inflight {
      var s := PendingCanReach(cfg);
    }
  }
}
