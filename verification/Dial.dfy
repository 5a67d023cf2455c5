/** The dial protocol of the load generator: one spawner, any number of dial goroutines and any
    number of close callbacks, interleaved one atomic action at a time. */
module Dial {
  import opened Counting
  import opened Registry

  /** Which of the two counters the spawner loads first. The program is ActiveFirst; the other
      two say what the same protocol would do with the operands swapped or read in one action. */
  datatype LoadOrder = ActiveFirst | PendingFirst | Together

  datatype Config = Config(target: int, inflight: nat, rate: int, urls: nat, order: LoadOrder) {
    predicate Valid() { urls > 0 }

    /** max(rate / 100, 1); a negative quotient, truncated or not, loses against 1. */
    function PerTick(): nat {
      if rate >= 200 then rate / 100 else 1
    }
  }

  /** Where the spawner is. Top(i) is the head of the inner loop, Reserved has the token, the
      url and the increment of pending, and goes on to start the goroutine. */
  datatype Spawner =
    | Waiting
    | Stopped
    | Top(i: nat)
    | Loaded(i: nat, seen: int)
    | Admitted(i: nat)
    | Acquired(i: nat)
    | Reserved(i: nat, url: nat)

  /** Where a dial goroutine is. Stored has added its connection but not yet counted it. */
  datatype Phase =
    | Launched
    | Dialing
    | DialFailed
    | Dialed
    | Stored
    | Counted
    | Returning
    | Released
    | Done

  datatype Dialer = Dialer(url: nat, phase: Phase)

  /** Where a close callback is. Removed has taken the connection out but not yet uncounted it. */
  datatype CloserPhase = Closing | Removed | Uncounted | Undisplayed | Closed

  datatype Closer = Closer(conn: nat, phase: CloserPhase)

  /** Goroutine g dials connection g. `refused` counts the adds that returned false. */
  datatype State = State(
    spawner: Spawner, next: nat,
    active: int, pending: int, sem: int,
    gauge: int, dials: int, errors: int, refused: int, disconnects: int,
    reg: Reg<nat>, dialers: seq<Dialer>, closers: seq<Closer>)

  const START: State := State(Waiting, 0, 0, 0, 0, 0, 0, 0, 0, 0, Reg([], {}), [], [])

  datatype Step =
    | Tick                            // the ticker fires
    | Stop                            // the context is done
    | EndOfTick                       // perTick dials were started
    | FirstLoad
    | SecondLoad
    | Acquire                         // take a token, or give up until the next tick
    | Reserve                         // choose the url, count the dial as pending
    | Launch                          // go func()
    | DialerStep(g: nat, ok: bool)    // ok is the outcome of Dial
    | Close(conn: nat)                // the connection library calls OnClose
    | CloserStep(k: nat)

  ghost predicate Enabled(cfg: Config, s: State, step: Step) {
    match step
    case Tick => s.spawner == Waiting
    case Stop => s.spawner == Waiting
    case EndOfTick => s.spawner.Top? && s.spawner.i >= cfg.PerTick()
    case FirstLoad => s.spawner.Top? && s.spawner.i < cfg.PerTick()
    case SecondLoad => s.spawner.Loaded?
    case Acquire => s.spawner.Admitted?
    case Reserve => s.spawner.Acquired?
    case Launch => s.spawner.Reserved?
    case DialerStep(g, _) => g < |s.dialers| && s.dialers[g].phase != Done
    case Close(c) => c < |s.dialers| && s.dialers[c].phase != Launched
    case CloserStep(k) => k < |s.closers| && s.closers[k].phase != Closed
  }

  ghost function Apply(cfg: Config, s: State, step: Step): State
    requires cfg.Valid() && Enabled(cfg, s, step)
  {
    match step
    case Tick => s.(spawner := Top(0))
    case Stop => s.(spawner := Stopped)
    case EndOfTick => s.(spawner := Waiting)
    case FirstLoad => LoadFirst(cfg, s)
    case SecondLoad => LoadSecond(cfg, s)
    case Acquire =>
      if s.sem < cfg.inflight then s.(sem := s.sem + 1, spawner := Acquired(s.spawner.i))
      else s.(spawner := Waiting)
    case Reserve =>
      s.(next := s.next + 1, pending := s.pending + 1,
         spawner := Reserved(s.spawner.i, s.next % cfg.urls))
    case Launch =>
      s.(dialers := s.dialers + [Dialer(s.spawner.url, Launched)], spawner := Top(s.spawner.i + 1))
    case DialerStep(g, ok) => AdvanceDialer(s, g, ok)
    case Close(c) => s.(closers := s.closers + [Closer(c, Closing)])
    case CloserStep(k) => AdvanceCloser(s, k)
  }

  /** The first of the two loads in the admission test. */
  ghost function LoadFirst(cfg: Config, s: State): State
    requires s.spawner.Top?
  {
    match cfg.order
    case ActiveFirst => s.(spawner := Loaded(s.spawner.i, s.active))
    case PendingFirst => s.(spawner := Loaded(s.spawner.i, s.pending))
    case Together =>
      s.(spawner := if s.active + s.pending >= cfg.target then Waiting else Admitted(s.spawner.i))
  }

  /** The second load and the comparison with the target. */
  ghost function LoadSecond(cfg: Config, s: State): State
    requires s.spawner.Loaded?
  {
    var other := if cfg.order == PendingFirst then s.active else s.pending;
    s.(spawner := if s.spawner.seen + other >= cfg.target then Waiting else Admitted(s.spawner.i))
  }

  ghost function AdvanceDialer(s: State, g: nat, ok: bool): State
    requires g < |s.dialers| && s.dialers[g].phase != Done
  {
    var d := s.dialers[g];
    match d.phase
    case Launched => MoveDialer(s, g, Dialing).(dials := s.dials + 1)
    case Dialing => MoveDialer(s, g, if ok then Dialed else DialFailed)
    case DialFailed => MoveDialer(s, g, Returning).(errors := s.errors + 1)
    case Dialed =>
      var (reg, added) := Add(s.reg, g);
      if added then MoveDialer(s, g, Stored).(reg := reg)
      else MoveDialer(s, g, Returning).(reg := reg, refused := s.refused + 1)
    case Stored => MoveDialer(s, g, Counted).(active := s.active + 1)
    case Counted => MoveDialer(s, g, Returning).(gauge := s.gauge + 1)
    case Returning => MoveDialer(s, g, Released).(sem := s.sem - 1)
    case Released => MoveDialer(s, g, Done).(pending := s.pending - 1)
  }

  ghost function MoveDialer(s: State, g: nat, phase: Phase): State
    requires g < |s.dialers|
  {
    s.(dialers := s.dialers[g := s.dialers[g].(phase := phase)])
  }

  ghost function AdvanceCloser(s: State, k: nat): State
    requires k < |s.closers| && s.closers[k].phase != Closed
  {
    match s.closers[k].phase
    case Closing =>
      var (reg, removed) := Remove(s.reg, s.closers[k].conn);
      MoveCloser(s, k, if removed then Removed else Closed).(reg := reg)
    case Removed => MoveCloser(s, k, Uncounted).(active := s.active - 1)
    case Uncounted => MoveCloser(s, k, Undisplayed).(gauge := s.gauge - 1)
    case Undisplayed => MoveCloser(s, k, Closed).(disconnects := s.disconnects + 1)
  }

  ghost function MoveCloser(s: State, k: nat, phase: CloserPhase): State
    requires k < |s.closers|
  {
    s.(closers := s.closers[k := s.closers[k].(phase := phase)])
  }

  ghost predicate Next(cfg: Config, s: State, s': State)
    requires cfg.Valid()
  {
    exists step :: Enabled(cfg, s, step) && Apply(cfg, s, step) == s'
  }

  /** A run: a state sequence from the start state in which every step is one atomic action. */
  ghost predicate IsRun(cfg: Config, run: seq<State>)
    requires cfg.Valid()
  {
    && |run| > 0
    && run[0] == START
    && forall i :: 0 < i < |run| ==> Next(cfg, run[i - 1], run[i])
  }

  ghost predicate Reachable(cfg: Config, s: State)
    requires cfg.Valid()
  {
    exists run :: IsRun(cfg, run) && run[|run| - 1] == s
  }

  // Classes of goroutines, counted below.

  predicate InDial(d: Dialer) { d.phase in {Launched, Dialing, Dialed} }
  predicate IsStored(d: Dialer) { d.phase == Stored }
  predicate NotShown(d: Dialer) { d.phase in {Stored, Counted} }
  predicate HoldsToken(d: Dialer) { d.phase != Released && d.phase != Done }
  predicate NotDone(d: Dialer) { d.phase != Done }
  predicate Begun(d: Dialer) { d.phase != Launched }
  predicate Unresolved(d: Dialer) { d.phase in {Dialing, DialFailed, Dialed} }

  predicate IsRemoved(c: Closer) { c.phase == Removed }
  predicate StillShown(c: Closer) { c.phase in {Removed, Uncounted} }
  predicate Unreported(c: Closer) { c.phase in {Removed, Uncounted, Undisplayed} }

  ghost function DialsInProgress(s: State): nat { Count(s.dialers, InDial) }
  ghost function AddsNotCounted(s: State): nat { Count(s.dialers, IsStored) }
  ghost function RemovesNotCounted(s: State): nat { Count(s.closers, IsRemoved) }

  /** Stored connections plus dials in progress: what the loop is documented to keep at the
      target. */
  ghost function Load(s: State): nat { |s.reg.conns| + DialsInProgress(s) }

  /** Goroutines that `active` does not count yet: dialing, or stored and not counted. */
  ghost function Uncredited(s: State): nat { DialsInProgress(s) + AddsNotCounted(s) }
}
