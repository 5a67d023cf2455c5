/** What every interleaving of the dial protocol keeps. */
module DialSafety {
  import opened Counting
  import opened Registry
  import opened Cyclic
  import opened Dial

  ghost function Bit(b: bool): int { if b then 1 else 0 }

  // ---------------------------------------------------------------- accounting

  /** The semaphore and `pending`, as functions of where the goroutines are. */
  ghost predicate TokensAccounted(cfg: Config, s: State) {
    && s.sem == Count(s.dialers, HoldsToken) + Bit(s.spawner.Acquired? || s.spawner.Reserved?)
    && s.sem <= cfg.inflight
    && s.pending == Count(s.dialers, NotDone) + Bit(s.spawner.Reserved?)
  }

  /** `active` and the gauge, as functions of where the goroutines are. */
  ghost predicate OpenAccounted(s: State) {
    && s.active == |s.reg.conns| - AddsNotCounted(s) + RemovesNotCounted(s)
    && s.gauge == |s.reg.conns| - Count(s.dialers, NotShown) + Count(s.closers, StillShown)
  }

  /** No dial is lost: each is unresolved, failed, refused, open or disconnected. */
  ghost predicate DialsAccounted(s: State) {
    && s.dials == Count(s.dialers, Begun)
    && s.dials == Count(s.dialers, Unresolved) + s.errors + s.refused + |s.reg.conns|
                  + Count(s.closers, Unreported) + s.disconnects
  }

  ghost predicate Accounts(cfg: Config, s: State) {
    TokensAccounted(cfg, s) && OpenAccounted(s) && DialsAccounted(s)
  }

  /** A stored connection belongs to a goroutine whose add has returned true. */
  ghost predicate StoredAfterAdd(s: State) {
    && WellFormed(s.reg)
    && forall c :: c in s.reg.conns ==> c < |s.dialers|
                                        && s.dialers[c].phase in {Stored, Counted, Returning, Released, Done}
  }

  /** How the counts of dial goroutines change when one of them moves. */
  lemma DialerCounts(ds: seq<Dialer>, g: nat, d: Dialer)
    requires g < |ds|
    ensures Count(ds[g := d], InDial) == Count(ds, InDial) - Bit(InDial(ds[g])) + Bit(InDial(d))
    ensures Count(ds[g := d], IsStored) == Count(ds, IsStored) - Bit(IsStored(ds[g])) + Bit(IsStored(d))
    ensures Count(ds[g := d], NotShown) == Count(ds, NotShown) - Bit(NotShown(ds[g])) + Bit(NotShown(d))
    ensures Count(ds[g := d], HoldsToken) == Count(ds, HoldsToken) - Bit(HoldsToken(ds[g])) + Bit(HoldsToken(d))
    ensures Count(ds[g := d], NotDone) == Count(ds, NotDone) - Bit(NotDone(ds[g])) + Bit(NotDone(d))
    ensures Count(ds[g := d], Begun) == Count(ds, Begun) - Bit(Begun(ds[g])) + Bit(Begun(d))
    ensures Count(ds[g := d], Unresolved) == Count(ds, Unresolved) - Bit(Unresolved(ds[g])) + Bit(Unresolved(d))
  {
    CountUpdate(ds, g, d, InDial);
    CountUpdate(ds, g, d, IsStored);
    CountUpdate(ds, g, d, NotShown);
    CountUpdate(ds, g, d, HoldsToken);
    CountUpdate(ds, g, d, NotDone);
    CountUpdate(ds, g, d, Begun);
    CountUpdate(ds, g, d, Unresolved);
  }

  lemma LaunchCounts(ds: seq<Dialer>, url: nat)
    ensures var ds' := ds + [Dialer(url, Launched)];
            && Count(ds', InDial) == Count(ds, InDial) + 1
            && Count(ds', HoldsToken) == Count(ds, HoldsToken) + 1
            && Count(ds', NotDone) == Count(ds, NotDone) + 1
            && Count(ds', IsStored) == Count(ds, IsStored)
            && Count(ds', NotShown) == Count(ds, NotShown)
            && Count(ds', Begun) == Count(ds, Begun)
            && Count(ds', Unresolved) == Count(ds, Unresolved)
  {
    var d := Dialer(url, Launched);
    CountAppend(ds, d, InDial);
    CountAppend(ds, d, HoldsToken);
    CountAppend(ds, d, NotDone);
    CountAppend(ds, d, IsStored);
    CountAppend(ds, d, NotShown);
    CountAppend(ds, d, Begun);
    CountAppend(ds, d, Unresolved);
  }

  lemma CloserCounts(cs: seq<Closer>, k: nat, c: Closer)
    requires k < |cs|
    ensures Count(cs[k := c], IsRemoved) == Count(cs, IsRemoved) - Bit(IsRemoved(cs[k])) + Bit(IsRemoved(c))
    ensures Count(cs[k := c], StillShown) == Count(cs, StillShown) - Bit(StillShown(cs[k])) + Bit(StillShown(c))
    ensures Count(cs[k := c], Unreported) == Count(cs, Unreported) - Bit(Unreported(cs[k])) + Bit(Unreported(c))
  {
    CountUpdate(cs, k, c, IsRemoved);
    CountUpdate(cs, k, c, StillShown);
    CountUpdate(cs, k, c, Unreported);
  }

  lemma CloseCounts(cs: seq<Closer>, conn: nat)
    ensures var cs' := cs + [Closer(conn, Closing)];
            && Count(cs', IsRemoved) == Count(cs, IsRemoved)
            && Count(cs', StillShown) == Count(cs, StillShown)
            && Count(cs', Unreported) == Count(cs, Unreported)
  {
    var c := Closer(conn, Closing);
    CountAppend(cs, c, IsRemoved);
    CountAppend(cs, c, StillShown);
    CountAppend(cs, c, Unreported);
  }

  lemma DialerKeepsTokens(cfg: Config, s: State, g: nat, ok: bool)
    requires Enabled(cfg, s, DialerStep(g, ok)) && TokensAccounted(cfg, s) && StoredAfterAdd(s)
    ensures TokensAccounted(cfg, AdvanceDialer(s, g, ok))
  {
    hide Count;
    AddSets(s.reg, g);
    DialerCounts(s.dialers, g, AdvanceDialer(s, g, ok).dialers[g]);
  }

  lemma DialerKeepsOpen(cfg: Config, s: State, g: nat, ok: bool)
    requires Enabled(cfg, s, DialerStep(g, ok)) && OpenAccounted(s) && StoredAfterAdd(s)
    ensures OpenAccounted(AdvanceDialer(s, g, ok))
  {
    hide Count;
    AddSets(s.reg, g);
    DialerCounts(s.dialers, g, AdvanceDialer(s, g, ok).dialers[g]);
  }

  lemma DialerKeepsDials(cfg: Config, s: State, g: nat, ok: bool)
    requires Enabled(cfg, s, DialerStep(g, ok)) && DialsAccounted(s) && StoredAfterAdd(s)
    ensures DialsAccounted(AdvanceDialer(s, g, ok))
  {
    hide Count;
    AddSets(s.reg, g);
    DialerCounts(s.dialers, g, AdvanceDialer(s, g, ok).dialers[g]);
  }

  lemma CloserKeepsAccounts(cfg: Config, s: State, k: nat)
    requires cfg.Valid() && Enabled(cfg, s, CloserStep(k))
    requires Accounts(cfg, s) && StoredAfterAdd(s)
    ensures Accounts(cfg, AdvanceCloser(s, k))
  {
    hide Count;
    RemoveSets(s.reg, s.closers[k].conn);
    CloserCounts(s.closers, k, AdvanceCloser(s, k).closers[k]);
  }

  lemma StepKeepsAccounts(cfg: Config, s: State, step: Step)
    requires cfg.Valid() && Enabled(cfg, s, step)
    requires Accounts(cfg, s) && StoredAfterAdd(s)
    ensures Accounts(cfg, Apply(cfg, s, step))
  {
    hide Count, AdvanceDialer, AdvanceCloser;
    match step
    case Launch => LaunchCounts(s.dialers, s.spawner.url);
    case DialerStep(g, ok) =>
      DialerKeepsTokens(cfg, s, g, ok);
      DialerKeepsOpen(cfg, s, g, ok);
      DialerKeepsDials(cfg, s, g, ok);
    case Close(c) => CloseCounts(s.closers, c);
    case CloserStep(k) => CloserKeepsAccounts(cfg, s, k);
    case _ =>
  }

  lemma DialerKeepsStored(s: State, g: nat, ok: bool)
    requires g < |s.dialers| && s.dialers[g].phase != Done && StoredAfterAdd(s)
    ensures StoredAfterAdd(AdvanceDialer(s, g, ok))
  {
    hide Add;
    var s' := AdvanceDialer(s, g, ok);
    AddSets(s.reg, g);
    forall c | c in s'.reg.conns
      ensures c in s.reg.conns || (c == g && s'.dialers[g].phase == Stored)
    {
      assert c in Elems(s'.reg.conns);
    }
  }

  lemma CloserKeepsStored(s: State, k: nat)
    requires k < |s.closers| && s.closers[k].phase != Closed && StoredAfterAdd(s)
    ensures StoredAfterAdd(AdvanceCloser(s, k))
  {
    hide Remove;
    var s' := AdvanceCloser(s, k);
    RemoveSets(s.reg, s.closers[k].conn);
    forall c | c in s'.reg.conns
      ensures c in s.reg.conns
    {
      assert c in Elems(s'.reg.conns);
    }
  }

  lemma StepKeepsStored(cfg: Config, s: State, step: Step)
    requires cfg.Valid() && Enabled(cfg, s, step) && StoredAfterAdd(s)
    ensures StoredAfterAdd(Apply(cfg, s, step))
  {
    hide AdvanceDialer, AdvanceCloser;
    match step
    case DialerStep(g, ok) => DialerKeepsStored(s, g, ok);
    case CloserStep(k) => CloserKeepsStored(s, k);
    case _ =>
  }

  // ---------------------------------------------------------------- overshoot

  /** 0 + 1 + ... + (x - 1). */
  ghost function Tri(x: int): (r: nat) {
    if x <= 1 then 0 else Tri(x - 1) + (x - 1)
  }

  lemma {:induction false} TriMonotone(x: int, y: int)
    requires x <= y
    ensures Tri(x) <= Tri(y)
    decreases y - x
  {
    if x < y {
      TriMonotone(x, y - 1);
    }
  }

  lemma {:induction false} TriClosedForm(x: nat)
    ensures 2 * Tri(x) == x * (x - 1)
  {
    if x > 1 {
      TriClosedForm(x - 1);
    }
  }

  /** The target that counts: below zero nothing is dialed, as at zero. */
  ghost function Goal(cfg: Config): nat {
    if cfg.target < 0 then 0 else cfg.target
  }

  ghost function Overshoot(cfg: Config, s: State): int { Load(s) - Goal(cfg) }

  /** With `active` loaded first: the further over the target, the fewer goroutines are left
      that could finish between the two loads of the next admission test. */
  ghost predicate ActiveFirstInv(cfg: Config, s: State) {
    var over := Overshoot(cfg, s);
    && (over >= 1 ==> Uncredited(s) + Tri(over) <= cfg.inflight)
    && (over >= 1 ==> Tri(over) + 1 <= cfg.inflight)
    && (s.spawner.Loaded? ==> Load(s) + Tri(over) <= s.spawner.seen + cfg.inflight)
    && (s.spawner.Admitted? || s.spawner.Acquired? || s.spawner.Reserved? ==>
          over >= 0 ==> Uncredited(s) + 1 + Tri(over + 1) <= cfg.inflight)
  }

  /** With `pending` loaded first, or both loaded at once: an admitted dial fits. */
  ghost predicate NoOvershootInv(cfg: Config, s: State) {
    && Overshoot(cfg, s) <= 0
    && (s.spawner.Loaded? ==> cfg.order == PendingFirst && Uncredited(s) <= s.spawner.seen)
    && (s.spawner.Admitted? || s.spawner.Acquired? || s.spawner.Reserved? ==> Overshoot(cfg, s) < 0)
  }

  ghost predicate LoadInv(cfg: Config, s: State) {
    if cfg.order == ActiveFirst then ActiveFirstInv(cfg, s) else NoOvershootInv(cfg, s)
  }

  lemma DialerAddsNoLoad(s: State, g: nat, ok: bool)
    requires g < |s.dialers| && s.dialers[g].phase != Done && StoredAfterAdd(s)
    ensures Load(AdvanceDialer(s, g, ok)) <= Load(s)
    ensures Uncredited(AdvanceDialer(s, g, ok)) <= Uncredited(s)
  {
    hide Count, Add;
    AddSets(s.reg, g);
    DialerCounts(s.dialers, g, AdvanceDialer(s, g, ok).dialers[g]);
  }

  lemma CloserAddsNoLoad(s: State, k: nat)
    requires k < |s.closers| && s.closers[k].phase != Closed && StoredAfterAdd(s)
    ensures Load(AdvanceCloser(s, k)) <= Load(s)
    ensures Uncredited(AdvanceCloser(s, k)) == Uncredited(s)
  {
    hide Count, Remove;
    RemoveSets(s.reg, s.closers[k].conn);
  }

  /** No goroutine or callback raises the load or the uncredited number; only Launch does. */
  lemma OnlyLaunchAddsLoad(cfg: Config, s: State, step: Step)
    requires cfg.Valid() && Enabled(cfg, s, step) && StoredAfterAdd(s)
    ensures var s' := Apply(cfg, s, step);
            if step == Launch then
              Load(s') == Load(s) + 1 && Uncredited(s') == Uncredited(s) + 1
            else
              Load(s') <= Load(s) && Uncredited(s') <= Uncredited(s)
  {
    hide Count, AdvanceDialer, AdvanceCloser;
    match step
    case Launch => LaunchCounts(s.dialers, s.spawner.url);
    case DialerStep(g, ok) => DialerAddsNoLoad(s, g, ok);
    case CloserStep(k) => CloserAddsNoLoad(s, k);
    case _ =>
  }

  /** The uncredited goroutines all hold a token, and all are pending. */
  lemma UncreditedBounds(cfg: Config, s: State)
    requires Accounts(cfg, s)
    ensures Uncredited(s) <= s.sem <= cfg.inflight
    ensures Uncredited(s) <= s.pending
    ensures s.spawner.Acquired? || s.spawner.Reserved? ==> Uncredited(s) + 1 <= s.sem
    ensures Load(s) == s.active + Uncredited(s) - RemovesNotCounted(s)
  {
    CountSplit(s.dialers, InDial, IsStored, HoldsToken);
    CountSplit(s.dialers, InDial, IsStored, NotDone);
  }

  /** Every step keeps the invariant of the program's order: losing goroutines or connections only
      relaxes it, and an admission pays for the dial that it lets through. */
  lemma ActiveFirstStep(cfg: Config, s: State, step: Step)
    requires cfg.Valid() && Enabled(cfg, s, step) && cfg.order == ActiveFirst
    requires Accounts(cfg, s) && StoredAfterAdd(s) && ActiveFirstInv(cfg, s)
    ensures ActiveFirstInv(cfg, Apply(cfg, s, step))
  {
    hide Count;
    var s' := Apply(cfg, s, step);
    OnlyLaunchAddsLoad(cfg, s, step);
    UncreditedBounds(cfg, s);
    var over, over' := Overshoot(cfg, s), Overshoot(cfg, s');
    if step == Launch {
      assert over' == over + 1;
    } else {
      TriMonotone(over', over);
      TriMonotone(over' + 1, over + 1);
      if step == SecondLoad && s'.spawner.Admitted? && over >= 0 {
        assert Tri(over + 1) == Tri(over) + over;
      }
    }
  }

  lemma NoOvershootStep(cfg: Config, s: State, step: Step)
    requires cfg.Valid() && Enabled(cfg, s, step) && cfg.order != ActiveFirst
    requires Accounts(cfg, s) && StoredAfterAdd(s) && NoOvershootInv(cfg, s)
    ensures NoOvershootInv(cfg, Apply(cfg, s, step))
  {
    hide Count;
    OnlyLaunchAddsLoad(cfg, s, step);
    UncreditedBounds(cfg, s);
  }

  // ---------------------------------------------------------------- refused adds

  /** A tombstone was left by a close callback that has returned. */
  ghost predicate TombstonesExplained(s: State) {
    forall c :: c in s.reg.closed ==> exists k :: 0 <= k < |s.closers| && s.closers[k] == Closer(c, Closed)
  }

  lemma StepKeepsTombstones(cfg: Config, s: State, step: Step)
    requires cfg.Valid() && Enabled(cfg, s, step) && TombstonesExplained(s)
    ensures TombstonesExplained(Apply(cfg, s, step))
  {
    var s' := Apply(cfg, s, step);
    forall c | c in s'.reg.closed
      ensures exists k :: 0 <= k < |s'.closers| && s'.closers[k] == Closer(c, Closed)
    {
      if c in s.reg.closed {
        var k :| 0 <= k < |s.closers| && s.closers[k] == Closer(c, Closed);
        assert s'.closers[k] == s.closers[k];
      } else {
        assert s'.closers[step.k] == Closer(c, Closed);
      }
    }
  }

  // ---------------------------------------------------------------- urls

  /** The urls are used in turn. */
  ghost predicate UrlsInTurn(cfg: Config, s: State) {
    && cfg.Valid()
    && s.next == |s.dialers| + Bit(s.spawner.Reserved?)
    && (s.spawner.Reserved? ==> s.spawner.url == |s.dialers| % cfg.urls)
    && forall g :: 0 <= g < |s.dialers| ==> s.dialers[g].url == g % cfg.urls
  }

  lemma StepKeepsUrls(cfg: Config, s: State, step: Step)
    requires cfg.Valid() && Enabled(cfg, s, step) && UrlsInTurn(cfg, s)
    ensures UrlsInTurn(cfg, Apply(cfg, s, step))
  {
  }

  // ---------------------------------------------------------------- every reachable state

  /** With a target of zero or less, or no token to take, no dial is ever started. */
  ghost predicate IdleWithoutTarget(cfg: Config, s: State) {
    && (cfg.target <= 0 || cfg.inflight == 0 ==> s.dialers == [])
    && (cfg.target <= 0 ==>
          && (s.spawner.Loaded? ==> s.spawner.seen >= 0)
          && !(s.spawner.Admitted? || s.spawner.Acquired? || s.spawner.Reserved?))
  }

  lemma StepKeepsIdle(cfg: Config, s: State, step: Step)
    requires cfg.Valid() && Enabled(cfg, s, step)
    requires Accounts(cfg, s) && StoredAfterAdd(s) && IdleWithoutTarget(cfg, s)
    ensures IdleWithoutTarget(cfg, Apply(cfg, s, step))
  {
    assert s.reg.conns == [] || s.reg.conns[0] in s.reg.conns;
  }

  ghost predicate Inv(cfg: Config, s: State) {
    && Accounts(cfg, s)
    && StoredAfterAdd(s)
    && LoadInv(cfg, s)
    && TombstonesExplained(s)
    && UrlsInTurn(cfg, s)
    && IdleWithoutTarget(cfg, s)
  }

  lemma StepKeepsInv(cfg: Config, s: State, step: Step)
    requires cfg.Valid() && Enabled(cfg, s, step) && Inv(cfg, s)
    ensures Inv(cfg, Apply(cfg, s, step))
  {
    StepKeepsAccounts(cfg, s, step);
    StepKeepsStored(cfg, s, step);
    if cfg.order == ActiveFirst {
      ActiveFirstStep(cfg, s, step);
    } else {
      NoOvershootStep(cfg, s, step);
    }
    StepKeepsTombstones(cfg, s, step);
    StepKeepsUrls(cfg, s, step);
    StepKeepsIdle(cfg, s, step);
  }

  lemma {:induction false} RunKeepsInv(cfg: Config, run: seq<State>)
    requires cfg.Valid() && IsRun(cfg, run)
    ensures Inv(cfg, run[|run| - 1])
  {
    if |run| > 1 {
      var front := run[..|run| - 1];
      RunKeepsInv(cfg, front);
      var s := front[|front| - 1];
      assert Next(cfg, run[|run| - 2], run[|run| - 1]);
      var step :| Enabled(cfg, s, step) && Apply(cfg, s, step) == run[|run| - 1];
      StepKeepsInv(cfg, s, step);
    }
  }

  lemma ReachableInv(cfg: Config, s: State)
    requires cfg.Valid() && Reachable(cfg, s)
    ensures Inv(cfg, s)
  {
    var run :| IsRun(cfg, run) && run[|run| - 1] == s;
    RunKeepsInv(cfg, run);
  }

  // ---------------------------------------------------------------- outcomes over whole runs

  predicate HasFailed(d: Dialer) { d.phase == DialFailed }

  /** A dial comes back with an error. */
  ghost predicate Fails(s: State, s': State) {
    exists g :: 0 <= g < |s.dialers| && g < |s'.dialers|
                && s.dialers[g].phase == Dialing && s'.dialers[g].phase == DialFailed
  }

  /** A stored connection is taken out. */
  ghost predicate Closes(s: State, s': State) { |s'.reg.conns| < |s.reg.conns| }

  ghost function Failures(run: seq<State>): nat {
    if |run| <= 1 then 0 else Failures(run[..|run| - 1]) + Bit(Fails(run[|run| - 2], run[|run| - 1]))
  }

  ghost function Closures(run: seq<State>): nat {
    if |run| <= 1 then 0 else Closures(run[..|run| - 1]) + Bit(Closes(run[|run| - 2], run[|run| - 1]))
  }

  lemma StepCountsOutcomes(cfg: Config, s: State, step: Step)
    requires cfg.Valid() && Enabled(cfg, s, step) && StoredAfterAdd(s)
    ensures var s' := Apply(cfg, s, step);
            && s'.errors + Count(s'.dialers, HasFailed) == s.errors + Count(s.dialers, HasFailed) + Bit(Fails(s, s'))
            && s'.disconnects + Count(s'.closers, Unreported)
               == s.disconnects + Count(s.closers, Unreported) + Bit(Closes(s, s'))
  {
    hide Count, Add, Remove, WellFormed;
    match step
    case Launch => CountAppend(s.dialers, Dialer(s.spawner.url, Launched), HasFailed);
    case DialerStep(g, ok) =>
      AddSets(s.reg, g);
      var s' := Apply(cfg, s, step);
      CountUpdate(s.dialers, g, s'.dialers[g], HasFailed);
    case Close(c) => CloseCounts(s.closers, c);
    case CloserStep(k) =>
      RemoveSets(s.reg, s.closers[k].conn);
      CloserCounts(s.closers, k, Apply(cfg, s, step).closers[k]);
    case _ =>
  }

  /** In every run the errors are the dials that failed, and the disconnects the connections that
      were taken out, except those whose goroutine or callback has still to count them. */
  lemma {:induction false} OutcomesAreCounted(cfg: Config, run: seq<State>)
    requires cfg.Valid() && IsRun(cfg, run)
    ensures var s := run[|run| - 1];
            && s.errors == Failures(run) - Count(s.dialers, HasFailed)
            && s.disconnects == Closures(run) - Count(s.closers, Unreported)
  {
    hide Apply, Count, Fails, Closes;
    if |run| > 1 {
      var front := run[..|run| - 1];
      var s := front[|front| - 1];
      OutcomesAreCounted(cfg, front);
      RunKeepsInv(cfg, front);
      assert Next(cfg, run[|run| - 2], run[|run| - 1]);
      var step :| Enabled(cfg, s, step) && Apply(cfg, s, step) == run[|run| - 1];
      StepCountsOutcomes(cfg, s, step);
    } else {
      NothingAtStart();
    }
  }

  lemma NothingAtStart()
    ensures Count(START.dialers, HasFailed) == 0 && Count(START.closers, Unreported) == 0
  {
  }

  /** The true bound of the program: an overshoot of x needs x(x-1)/2 goroutines besides one. */
  lemma OvershootIsTriangular(cfg: Config, s: State)
    requires cfg.Valid() && cfg.order == ActiveFirst && Reachable(cfg, s)
    ensures var over := Overshoot(cfg, s);
            over >= 1 ==> over * (over - 1) <= 2 * (cfg.inflight - 1)
    ensures Load(s) <= Goal(cfg) + cfg.inflight
  {
    ReachableInv(cfg, s);
    var over := Overshoot(cfg, s);
    if over >= 1 {
      TriClosedForm(over);
      TriAtLeast(over);
    }
  }

  lemma {:induction false} TriAtLeast(x: nat)
    requires x >= 1
    ensures Tri(x) >= x - 1
  {
    if x > 1 {
      TriAtLeast(x - 1);
    }
  }

  /** Reading the two counters in one action, or `pending` before `active`, would keep the
      documented promise: the load never passes the target. */
  lemma OtherOrdersKeepTheTarget(cfg: Config, s: State)
    requires cfg.Valid() && cfg.order != ActiveFirst && Reachable(cfg, s)
    ensures Load(s) <= Goal(cfg)
  {
    ReachableInv(cfg, s);
  }

  /** Nothing is under way: every dial goroutine and every close callback has returned, and the
      spawner is not between taking a token and starting the goroutine. */
  ghost predicate Quiescent(s: State) {
    && (forall d :: d in s.dialers ==> d.phase == Done)
    && (forall c :: c in s.closers ==> c.phase == Closed)
    && !s.spawner.Acquired? && !s.spawner.Reserved?
  }

  /** When nothing is under way, the counters tell the truth and every dial is accounted for. */
  lemma QuiescentCounters(cfg: Config, s: State)
    requires cfg.Valid() && Reachable(cfg, s) && Quiescent(s)
    ensures s.active == s.gauge == |s.reg.conns|
    ensures s.pending == 0 && s.sem == 0
    ensures s.dials == |s.dialers|
    ensures s.dials == s.errors + s.refused + s.disconnects + |s.reg.conns|
  {
    ReachableInv(cfg, s);
    CountNone(s.dialers, HoldsToken);
    CountNone(s.dialers, NotDone);
    CountNone(s.dialers, IsStored);
    CountNone(s.dialers, NotShown);
    CountNone(s.dialers, Unresolved);
    CountNone(s.closers, IsRemoved);
    CountNone(s.closers, StillShown);
    CountNone(s.closers, Unreported);
    CountAllBegun(s.dialers);
  }

  lemma {:induction false} CountAllBegun(ds: seq<Dialer>)
    requires forall d :: d in ds ==> d.phase == Done
    ensures Count(ds, Begun) == |ds|
  {
    if |ds| > 0 {
      CountAllBegun(ds[..|ds| - 1]);
    }
  }

  /** From a quiescent state the next tick starts a dial exactly when connections are missing
      and dials are allowed at all. */
  lemma NextTickDials(cfg: Config, s: State)
    requires cfg.Valid() && Reachable(cfg, s) && Quiescent(s) && s.spawner == Waiting
    ensures var tried := AfterAdmission(cfg, s);
            if |s.reg.conns| < cfg.target && cfg.inflight > 0 then
              && tried.spawner.Acquired?
              && Apply(cfg, Apply(cfg, tried, Reserve), Launch).dialers
                 == s.dialers + [Dialer(s.next % cfg.urls, Launched)]
            else
              tried == s
  {
    QuiescentCounters(cfg, s);
  }

  /** The spawner alone, from a tick to the token or to giving up. */
  ghost function AfterAdmission(cfg: Config, s: State): State
    requires cfg.Valid() && s.spawner == Waiting
  {
    var s1 := Apply(cfg, Apply(cfg, s, Tick), FirstLoad);
    var s2 := if s1.spawner.Loaded? then Apply(cfg, s1, SecondLoad) else s1;
    if s2.spawner.Admitted? then Apply(cfg, s2, Acquire) else s2
  }

  /** A dialed connection is refused exactly when it is a tombstone, and then a close callback
      for that very connection has already returned; it is never refused as a duplicate. */
  lemma RefusedMeansClosed(cfg: Config, s: State, g: nat)
    requires cfg.Valid() && Reachable(cfg, s) && g < |s.dialers| && s.dialers[g].phase == Dialed
    ensures !Add(s.reg, g).1 <==> g in s.reg.closed
    ensures !Add(s.reg, g).1 ==> exists k :: 0 <= k < |s.closers| && s.closers[k] == Closer(g, Closed)
  {
    ReachableInv(cfg, s);
  }

  ghost function UrlsDialed(s: State): seq<nat> {
    seq(|s.dialers|, g requires 0 <= g < |s.dialers| => s.dialers[g].url)
  }

  /** In every run the numbers of dials of any two urls differ by at most one. */
  lemma UrlsAreFair(cfg: Config, s: State, u: nat, v: nat)
    requires cfg.Valid() && Reachable(cfg, s) && u < cfg.urls && v < cfg.urls
    ensures multiset(UrlsDialed(s))[u] <= multiset(UrlsDialed(s))[v] + 1
  {
    ReachableInv(cfg, s);
    var ids := seq(cfg.urls, i requires 0 <= i < cfg.urls => i as nat);
    var walk := Walk(ids, 0, |s.dialers|);
    forall g | 0 <= g < |walk|
      ensures walk[g] == UrlsDialed(s)[g]
    {
      WrapIsMod(g, cfg.urls);
    }
    assert walk == UrlsDialed(s);
    FairWalk(ids, 0, |s.dialers|, u);
    FairWalk(ids, 0, |s.dialers|, v);
  }
}
