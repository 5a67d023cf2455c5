/** The guard and the upgrade handlers together: how far past the threshold memory can get. The
    guard reads the memory in one action and sets or clears the flag in a later one; handlers run
    in between. */
module Admission {
  import opened Wrappers
  import opened Arithmetic
  import opened Memory

  /** At most `window` handlers pass the check from one successful read to the next, at most `late`
      from a read to the guard's reaction to it, at most `between` are between check and upgrade at
      a read, and an upgrade costs at most `cost` bytes. */
  datatype Budget = Budget(max: nat, window: nat, late: nat, between: nat, cost: nat)

  /** reading is what the guard has read and not yet reacted to; passed counts the checks passed
      since the last successful read. */
  datatype System = System(memory: nat, overloaded: bool, reading: Option<nat>, upgrading: nat, passed: nat)

  datatype Event =
    | Read                  // the guard reads the memory
    | FailedRead            // the guard cannot read it, and waits for its next tick
    | React                 // the guard compares, and stores overloaded
    | Check                 // a handler loads overloaded: it goes on, or answers 503
    | Upgrade(bytes: nat)   // a handler that went on upgrades, or fails to, for no bytes
    | Free(bytes: nat)      // memory goes down

  /** Whether the event can happen, and keeps to the budget. */
  ghost predicate Allowed(b: Budget, s: System, e: Event) {
    match e
    case Read => s.reading == None && s.upgrading <= b.between
    case FailedRead => s.reading == None
    case React => s.reading.Some?
    case Check => !Admits(s.overloaded) || (s.passed < b.window && (s.reading.Some? ==> s.passed < b.late))
    case Upgrade(n) => s.upgrading > 0 && n <= b.cost
    case Free(n) => n <= s.memory
  }

  ghost function Happen(b: Budget, s: System, e: Event): System
    requires Allowed(b, s, e)
  {
    match e
    case Read => s.(reading := Some(s.memory), passed := 0)
    case FailedRead => s
    case React =>
      s.(overloaded := GuardNext(b.max, s.overloaded, Some(s.reading.value as int)), reading := None)
    case Check =>
      if Admits(s.overloaded) then s.(upgrading := s.upgrading + 1, passed := s.passed + 1) else s
    case Upgrade(n) => s.(upgrading := s.upgrading - 1, memory := s.memory + n)
    case Free(n) => s.(memory := s.memory - n)
  }

  /** A run: from a memory at or below the threshold, nobody upgrading. */
  ghost predicate IsRun(b: Budget, run: seq<System>) {
    && |run| > 0
    && run[0].memory <= High(b.max) && run[0] == System(run[0].memory, false, None, 0, 0)
    && forall i :: 0 < i < |run| ==> Step(b, run[i - 1], run[i])
  }

  ghost predicate Step(b: Budget, s: System, s': System) {
    exists e :: Allowed(b, s, e) && Happen(b, s, e) == s'
  }

  ghost predicate Reachable(b: Budget, s: System) {
    exists run :: IsRun(b, run) && run[|run| - 1] == s
  }

  /** Late checks are checks of the window too. */
  ghost function Late(b: Budget): nat { if b.late < b.window then b.late else b.window }

  /** Memory with n upgrades on top of the threshold. */
  ghost function Over(b: Budget, n: nat): nat { High(b.max) + b.cost * n }

  /** Memory now and what the handlers on their way may still add. */
  ghost function Committed(b: Budget, s: System): nat { s.memory + b.cost * s.upgrading }

  /** While new handlers are let through, what is committed is bounded by the checks passed since
      the last reading at or below the threshold: one window, or two while the guard has read
      more than the threshold and has not reacted yet. */
  ghost predicate Inv(b: Budget, s: System) {
    && s.passed <= b.window
    && Committed(b, s) <= Over(b, b.between + b.window + Late(b))
    && (s.reading == None && !s.overloaded ==> Committed(b, s) <= Over(b, b.between + s.passed))
    && (s.reading.Some? && s.reading.value <= High(b.max) ==> Committed(b, s) <= Over(b, b.between + s.passed))
    && (s.reading.Some? && !s.overloaded ==>
          s.passed <= Late(b) && Committed(b, s) <= Over(b, b.between + b.window + s.passed))
  }

  lemma OverMonotone(b: Budget, m: nat, n: nat)
    requires m <= n
    ensures Over(b, m) <= Over(b, n)
  {
    MulMonotone(m, n, b.cost);
  }

  lemma CheckKeepsInv(b: Budget, s: System)
    requires Inv(b, s) && Allowed(b, s, Check)
    ensures Inv(b, Happen(b, s, Check))
  {
    if !s.overloaded {
      OneMore(s.upgrading, b.cost);
      OneMore(b.between + s.passed, b.cost);
      OneMore(b.between + b.window + s.passed, b.cost);
      OverMonotone(b, b.between + s.passed + 1, b.between + b.window + Late(b));
      if s.reading.Some? {
        OverMonotone(b, b.between + b.window + s.passed + 1, b.between + b.window + Late(b));
      }
    }
  }

  lemma GuardKeepsInv(b: Budget, s: System, e: Event)
    requires Inv(b, s) && Allowed(b, s, e) && (e == Read || e == React)
    ensures Inv(b, Happen(b, s, e))
  {
    hide Share;
    ThresholdsInOrder(b.max);
    if e == Read {
      if s.memory <= High(b.max) {
        MulMonotone(s.upgrading, b.between, b.cost);
      }
      OverMonotone(b, b.between, b.between + b.window);
      OverMonotone(b, b.between + s.passed, b.between + b.window);
    }
  }

  lemma StepKeepsInv(b: Budget, s: System, e: Event)
    requires Inv(b, s) && Allowed(b, s, e)
    ensures Inv(b, Happen(b, s, e))
  {
    match e
    case Read => GuardKeepsInv(b, s, e);
    case FailedRead =>
    case React => GuardKeepsInv(b, s, e);
    case Check => CheckKeepsInv(b, s);
    case Upgrade(n) => OneMore(s.upgrading - 1, b.cost);
    case Free(n) =>
  }

  lemma {:induction false} RunKeepsInv(b: Budget, run: seq<System>)
    requires IsRun(b, run)
    ensures Inv(b, run[|run| - 1])
  {
    if |run| > 1 {
      var front := run[..|run| - 1];
      RunKeepsInv(b, front);
      assert Step(b, run[|run| - 2], run[|run| - 1]);
      var e :| Allowed(b, run[|run| - 2], e) && Happen(b, run[|run| - 2], e) == run[|run| - 1];
      StepKeepsInv(b, run[|run| - 2], e);
    } else {
      OverMonotone(b, 0, b.between);
      OverMonotone(b, 0, b.between + b.window + Late(b));
    }
  }

  /** In every run memory stays within the threshold and the upgrades of the handlers on their way
      at a read, of one window, and of those that pass before the guard reacts. */
  lemma MemoryIsBounded(b: Budget, s: System)
    requires Reachable(b, s)
    ensures s.memory <= b.max * 90 / 100 + b.cost * (b.between + b.window + Late(b))
  {
    SharesInNumbers(b.max);
    var run :| IsRun(b, run) && run[|run| - 1] == s;
    RunKeepsInv(b, run);
  }

  // ------------------------------------------------ the bound is reached

  lemma Advance(b: Budget, s: System, e: Event) returns (s': System)
    requires Reachable(b, s) && Allowed(b, s, e)
    ensures s' == Happen(b, s, e) && Reachable(b, s')
  {
    s' := Happen(b, s, e);
    var run :| IsRun(b, run) && run[|run| - 1] == s;
    var longer := run + [s'];
    assert Step(b, s, s');
    forall i | 0 < i < |longer|
      ensures Step(b, longer[i - 1], longer[i])
    {
      assert i < |run| ==> Step(b, run[i - 1], run[i]);
    }
    assert IsRun(b, longer);
  }

  /** n handlers pass the check. */
  lemma {:induction false} PassChecks(b: Budget, s: System, n: nat) returns (s': System)
    requires Reachable(b, s) && !s.overloaded && s.passed + n <= b.window
    requires s.reading.Some? ==> s.passed + n <= b.late
    ensures Reachable(b, s')
    ensures s' == s.(upgrading := s.upgrading + n, passed := s.passed + n)
    decreases n
  {
    s' := s;
    if n > 0 {
      s' := PassChecks(b, s, n - 1);
      s' := Advance(b, s', Check);
    }
  }

  /** n handlers pass the check, one in each window, and none upgrades. */
  lemma {:induction false} GatherHandlers(b: Budget, s: System, n: nat) returns (s': System)
    requires Reachable(b, s) && s == System(High(b.max), false, None, s.upgrading, 0)
    requires b.window > 0 && s.upgrading + n <= b.between
    ensures Reachable(b, s') && s' == s.(upgrading := s.upgrading + n)
    decreases n
  {
    s' := s;
    if n > 0 {
      s' := GatherHandlers(b, s, n - 1);
      s' := PassChecks(b, s', 1);
      s' := Advance(b, s', Read);
      s' := Advance(b, s', React);
    }
  }

  lemma {:induction false} UpgradeAll(b: Budget, s: System) returns (s': System)
    requires Reachable(b, s)
    ensures Reachable(b, s')
    ensures s' == s.(upgrading := 0, memory := s.memory + b.cost * s.upgrading)
    decreases s.upgrading
  {
    s' := s;
    if s.upgrading > 0 {
      OneMore(s.upgrading - 1, b.cost);
      s' := Advance(b, s, Upgrade(b.cost));
      s' := UpgradeAll(b, s');
    }
  }

  /** No smaller bound holds: in some run the handlers on their way and a window of them upgrade,
      the guard reads that memory, and as many as can pass before it reacts. */
  lemma BoundIsReached(b: Budget)
    requires b.window > 0
    ensures exists s :: Reachable(b, s) && s.memory == High(b.max) + b.cost * (b.between + b.window + Late(b))
  {
    var s := System(High(b.max), false, None, 0, 0);
    assert IsRun(b, [s]);
    s := GatherHandlers(b, s, b.between);
    s := PassChecks(b, s, b.window);
    s := UpgradeAll(b, s);
    s := Advance(b, s, Read);
    s := PassChecks(b, s, Late(b));
    s := UpgradeAll(b, s);
    Distribute(b.between + b.window, Late(b), b.cost);
  }

  /** With no window nobody is ever let through, and memory does not pass the threshold at all. */
  lemma {:induction false} NoWindowNoUpgrade(b: Budget, run: seq<System>)
    requires b.window == 0 && IsRun(b, run)
    ensures run[|run| - 1].upgrading == 0 && run[|run| - 1].memory <= High(b.max)
  {
    if |run| > 1 {
      NoWindowNoUpgrade(b, run[..|run| - 1]);
      assert Step(b, run[|run| - 2], run[|run| - 1]);
    }
  }

  /** The memory that can be reached, exactly: for every budget, up to the bound and no further. */
  lemma HighestMemory(b: Budget, m: nat)
    requires m >= b.max * 90 / 100
    ensures (exists s :: Reachable(b, s) && s.memory >= m)
            <==> m <= if b.window == 0 then b.max * 90 / 100
                      else b.max * 90 / 100 + b.cost * (b.between + b.window + Late(b))
  {
    SharesInNumbers(b.max);
    if s :| Reachable(b, s) && s.memory >= m {
      MemoryIsBounded(b, s);
      var run :| IsRun(b, run) && run[|run| - 1] == s;
      if b.window == 0 {
        NoWindowNoUpgrade(b, run);
      }
    }
    if b.window > 0 {
      BoundIsReached(b);
    } else {
      var s := System(High(b.max), false, None, 0, 0);
      assert IsRun(b, [s]);
      assert Reachable(b, s);
    }
  }
}
