/** The two feedback loops of the server: the Go memory limit that follows kernel memory, and the
    admission guard with its two thresholds. Shares of the cgroup limit are rounded down. */
module Memory {
  import opened Wrappers
  import opened Arithmetic

  function Share(max: nat, percent: nat): nat { max * percent / 100 }

  const REJECT_ABOVE := 90
  const ACCEPT_BELOW := 85
  const GO_LIMIT := REJECT_ABOVE - 2

  function High(max: nat): nat { Share(max, REJECT_ABOVE) }
  function Low(max: nat): nat { Share(max, ACCEPT_BELOW) }
  function Target(max: nat): nat { Share(max, GO_LIMIT) }
  function Floor(max: nat): nat { max / 20 }

  /** The thresholds in numbers. */
  lemma SharesInNumbers(max: nat)
    ensures High(max) == max * 90 / 100
    ensures Low(max) == max * 85 / 100
    ensures Target(max) == max * 88 / 100
  {
  }

  lemma ThresholdsInOrder(max: nat)
    ensures Low(max) <= High(max)
    ensures max >= 20 ==> Low(max) >= 2
  {
  }

  function Max(a: int, b: int): int { if a > b then a else b }

  // ------------------------------------------------ the Go memory limit

  /** Memory charged to the cgroup that the Go runtime does not hold. */
  function Other(current: int, goMapped: int): int { Max(current - goMapped, 0) }

  /** The limit for a reading, before the dead band. */
  function Fresh(max: nat, current: int, goMapped: int): int {
    Max(Target(max) - Other(current, goMapped), Floor(max))
  }

  /** The limit in force after a tick; a failed read and a change within 1% leave it alone. */
  function NextLimit(max: nat, last: nat, current: Option<int>, goMapped: int): int {
    match current
    case None => last
    case Some(c) =>
      var d := Fresh(max, c, goMapped) - last;
      if d > last / 100 || -d > last / 100 then Fresh(max, c, goMapped) else last
  }

  class LimitManager {
    const cgroupMax: nat
    var last: int
    var applied: Option<int> // what the runtime was last given

    constructor (cgroupMax: nat)
      ensures this.cgroupMax == cgroupMax && last == 0 && applied == None
    {
      this.cgroupMax := cgroupMax;
      last, applied := 0, None;
    }

    /** What last and the runtime's limit have to do with each other. */
    ghost predicate Valid()
      reads this
    {
      && 0 <= last
      && (applied == None ==> last == 0)
      && (applied != None ==> applied == Some(last) && Floor(cgroupMax) <= last <= Target(cgroupMax))
    }

    method Tick(current: Option<int>, goMapped: int)
      requires Valid()
      modifies this
      ensures Valid()
      ensures last == NextLimit(cgroupMax, old(last), current, goMapped)
      ensures cgroupMax >= 20 && current.Some? ==>
                SharesTheRest(cgroupMax, old(last), last, current.value, goMapped)
      ensures applied == if last == old(last) then old(applied) else Some(last)
    {
      LimitInRange(cgroupMax, current, goMapped);
      if current == None {
        return;
      }
      if cgroupMax >= 20 {
        TickSharesTheRest(cgroupMax, last, current.value, goMapped);
      }
      var target, floor := Target(cgroupMax), Floor(cgroupMax);
      var other := Max(current.value - goMapped, 0);
      var limit := Max(target - other, floor);
      var d := limit - last;
      if d > last / 100 || -d > last / 100 {
        applied := Some(limit);
        last := limit;
      }
    }
  }

  lemma LimitInRange(max: nat, current: Option<int>, goMapped: int)
    ensures current.Some? ==> Floor(max) <= Fresh(max, current.value, goMapped) <= Target(max)
  {
  }

  /** The constants fit: a floor below the target, and the target with its 1% below the guard. */
  lemma SharesFit(max: nat)
    requires max >= 20
    ensures 1 <= Floor(max) <= Target(max)
    ensures Target(max) + Target(max) / 100 <= High(max)
  {
  }

  /** The limit after a sequence of ticks: readings of the cgroup and of the runtime. */
  ghost function LimitAfter(max: nat, readings: seq<(Option<int>, int)>): (last: int)
    ensures 0 <= last
    ensures last == 0 || Floor(max) <= last <= Target(max)
  {
    if |readings| == 0 then 0
    else
      var (current, goMapped) := readings[|readings| - 1];
      LimitInRange(max, current, goMapped);
      NextLimit(max, LimitAfter(max, readings[..|readings| - 1]), current, goMapped)
  }

  /** What a limit leaves of the cgroup's memory, in the numbers read: with memory outside Go and
      room for the floor, that memory and the limit make up 88% of the cgroup limit; with none, the
      Go limit is that 88%; without room it is the floor of 5%. All this is exact for a limit that
      was just set, and up to 1% for one that was left alone. */
  ghost predicate SharesTheRest(max: nat, before: int, last: int, current: int, goMapped: int) {
    var target, band := max * 88 / 100, if last == before then last / 100 else 0;
    && max / 20 <= last <= target
    && (0 <= current - goMapped <= target - max / 20 ==>
          && -band <= current - goMapped + last - target <= band
          && current - goMapped + last <= max * 90 / 100)
    && (current < goMapped ==> -band <= last - target <= band)
    && (current - goMapped > target - max / 20 ==> -band <= last - max / 20 <= band)
  }

  lemma TickSharesTheRest(max: nat, last: int, current: int, goMapped: int)
    requires max >= 20 && 0 <= last && (last == 0 || Floor(max) <= last <= Target(max))
    ensures SharesTheRest(max, last, NextLimit(max, last, Some(current), goMapped), current, goMapped)
  {
    LimitInRange(max, Some(current), goMapped);
    SharesInNumbers(max);
    SharesFit(max);
    hide Share;
  }

  /** Whatever the history of readings, after every tick that read the cgroup. */
  lemma LimitSharesTheRest(max: nat, readings: seq<(Option<int>, int)>)
    requires max >= 20
    ensures forall k :: 0 <= k < |readings| && readings[k].0.Some? ==>
              SharesTheRest(max, LimitAfter(max, readings[..k]), LimitAfter(max, readings[..k + 1]),
                            readings[k].0.value, readings[k].1)
  {
    forall k | 0 <= k < |readings| && readings[k].0.Some?
      ensures SharesTheRest(max, LimitAfter(max, readings[..k]), LimitAfter(max, readings[..k + 1]),
                            readings[k].0.value, readings[k].1)
    {
      assert readings[..k + 1][..k] == readings[..k];
      TickSharesTheRest(max, LimitAfter(max, readings[..k]), readings[k].0.value, readings[k].1);
    }
  }

  /** The purpose of the two shares: while the runtime keeps to the limit set at tick k and the rest
      of the memory, as it was read then, leaves room for the floor, Go memory and the rest together
      are at most the guard's 90%, and a guard tick that sees them does not start rejecting. */
  lemma CollectsBeforeRejecting(max: nat, readings: seq<(Option<int>, int)>, k: nat, goNow: nat, overloaded: bool)
    requires max >= 20 && k < |readings| && readings[k].0.Some?
    requires goNow <= LimitAfter(max, readings[..k + 1])
    ensures var (current, goMapped) := (readings[k].0.value, readings[k].1);
            var rest := if current < goMapped then 0 else current - goMapped;
            rest <= max * 88 / 100 - max / 20 ==>
              && rest + goNow <= max * 90 / 100
              && (GuardNext(max, overloaded, Some(rest + goNow)) ==> overloaded)
  {
    LimitSharesTheRest(max, readings);
    SharesInNumbers(max);
  }

  // ------------------------------------------------ how often the limit changes

  /** The limit, how often it was set, the last fresh limit, and the distance the fresh limits have
      travelled since the first. */
  datatype LimitTrace = LimitTrace(last: nat, sets: nat, travelled: nat, wanted: int)

  ghost function Abs(x: int): nat { if x < 0 then -x else x }

  ghost function ObserveLimit(max: nat, t: LimitTrace, current: Option<int>, goMapped: int): LimitTrace
    requires t.last == 0 || Floor(max) <= t.last <= Target(max)
  {
    match current
    case None => t
    case Some(c) =>
      var wanted := Fresh(max, c, goMapped);
      LimitInRange(max, current, goMapped);
      var last := NextLimit(max, t.last, current, goMapped);
      LimitTrace(last, if last != t.last then t.sets + 1 else t.sets,
                 if t.sets == 0 then 0 else t.travelled + Abs(wanted - t.wanted), wanted)
  }

  ghost function LimitTraceOf(max: nat, readings: seq<(Option<int>, int)>): (t: LimitTrace)
    ensures t.last == LimitAfter(max, readings)
  {
    if |readings| == 0 then LimitTrace(0, 0, 0, 0)
    else
      var (current, goMapped) := readings[|readings| - 1];
      ObserveLimit(max, LimitTraceOf(max, readings[..|readings| - 1]), current, goMapped)
  }

  /** The dead band works: setting the limit k times needs fresh limits that travel (k - 1) times
      more than 1% of the floor. */
  lemma {:induction false} SetsNeedTravel(max: nat, readings: seq<(Option<int>, int)>)
    requires max >= 20
    ensures var t := LimitTraceOf(max, readings);
            t.sets >= 1 ==> t.travelled >= (t.sets - 1) * (Floor(max) / 100 + 1) + Abs(t.wanted - t.last)
    ensures var t := LimitTraceOf(max, readings);
            t.sets == 0 ==> t.last == 0
    ensures var t := LimitTraceOf(max, readings);
            t.sets >= 1 ==> Floor(max) <= t.last
  {
    if |readings| > 0 {
      var front := readings[..|readings| - 1];
      var (current, goMapped) := readings[|readings| - 1];
      SetsNeedTravel(max, front);
      LimitStepTravels(max, LimitTraceOf(max, front), current, goMapped);
    }
  }

  lemma LimitStepTravels(max: nat, t: LimitTrace, current: Option<int>, goMapped: int)
    requires max >= 20 && (t.last == 0 || Floor(max) <= t.last <= Target(max))
    requires t.sets >= 1 ==>
               Floor(max) <= t.last
               && t.travelled >= (t.sets - 1) * (Floor(max) / 100 + 1) + Abs(t.wanted - t.last)
    requires t.sets == 0 ==> t.last == 0
    ensures var t' := ObserveLimit(max, t, current, goMapped);
            && (t'.sets >= 1 ==>
                  Floor(max) <= t'.last
                  && t'.travelled >= (t'.sets - 1) * (Floor(max) / 100 + 1) + Abs(t'.wanted - t'.last))
            && (t'.sets == 0 ==> t'.last == 0)
  {
    hide Share, Floor;
    SharesFit(max);
    LimitInRange(max, current, goMapped);
    if current.Some? && t.sets >= 1 {
      OneMore(t.sets - 1, Floor(max) / 100 + 1);
    }
  }

  /** A reading for which the fresh limit is this much above the floor. */
  lemma FreshAboveFloor(max: nat, above: nat) returns (reading: (Option<int>, int))
    requires Floor(max) + above <= Target(max)
    ensures reading.0.Some? && reading.0.value >= 0
    ensures Fresh(max, reading.0.value, reading.1) == Floor(max) + above
  {
    reading := (Some(Target(max) - Floor(max) - above), 0);
  }

  /** From the floor to the next limit from which the way back is not within 1%. */
  ghost function Swing(max: nat): nat { Floor(max) / 99 + 1 }

  lemma SwingSets(max: nat, t: LimitTrace, above: nat, reading: (Option<int>, int))
    requires max >= 20 && t.sets >= 1 && above in {0, Swing(max)}
    requires t.last == t.wanted == Floor(max) + Swing(max) - above && t.last <= Target(max)
    requires reading.0.Some? && Fresh(max, reading.0.value, reading.1) == Floor(max) + above
    ensures ObserveLimit(max, t, reading.0, reading.1)
            == LimitTrace(Floor(max) + above, t.sets + 1, t.travelled + Swing(max), Floor(max) + above)
  {
    hide Share, Fresh, Floor;
  }

  lemma SwingFits(max: nat)
    requires max >= 20
    ensures Floor(max) + Swing(max) <= Target(max)
  {
  }

  /** The price can be as low as 1/99 of the floor per change: fresh limits that swing up and
      down. */
  lemma {:induction false} SetsCanCostThat(max: nat, k: nat) returns (readings: seq<(Option<int>, int)>)
    requires max >= 20 && k >= 1
    ensures forall r :: r in readings ==> r.0.Some? && r.0.value >= 0
    ensures var t := LimitTraceOf(max, readings);
            && t.sets == k
            && t.travelled == (k - 1) * (Floor(max) / 99 + 1)
            && t.wanted == t.last && (t.last == Floor(max) || t.last == Floor(max) + Swing(max))
  {
    hide Share, Floor, Fresh;
    SharesFit(max);
    SwingFits(max);
    if k == 1 {
      var reading := FreshAboveFloor(max, 0);
      readings := [reading];
      assert readings[..0] == [];
    } else {
      var before := SetsCanCostThat(max, k - 1);
      var t := LimitTraceOf(max, before);
      var above := if t.last == Floor(max) then Swing(max) else 0;
      var reading := FreshAboveFloor(max, above);
      readings := before + [reading];
      assert readings[..|before|] == before;
      SwingSets(max, t, above, reading);
      OneMore(k - 2, Swing(max));
    }
  }

  // ------------------------------------------------ the admission guard

  function GuardNext(max: nat, overloaded: bool, current: Option<int>): bool {
    match current
    case None => overloaded
    case Some(c) =>
      if c > High(max) && !overloaded then true
      else if c < Low(max) && overloaded then false
      else overloaded
  }

  /** The guard after a history of reads, successful or not. */
  ghost function GuardAfter(max: nat, reads_: seq<Option<int>>): bool {
    if |reads_| == 0 then false
    else GuardNext(max, GuardAfter(max, reads_[..|reads_| - 1]), reads_[|reads_| - 1])
  }

  /** Some reading passed 90% of the cgroup limit, and no successful one since then was below 85%. */
  ghost predicate PassedHigh(max: nat, reads_: seq<Option<int>>) {
    exists k :: 0 <= k < |reads_| && reads_[k].Some? && reads_[k].value > max * 90 / 100
                && forall j :: k < j < |reads_| && reads_[j].Some? ==> reads_[j].value >= max * 85 / 100
  }

  lemma PassedHighExtends(max: nat, reads_: seq<Option<int>>)
    requires |reads_| > 0
    ensures var r := reads_[|reads_| - 1];
            PassedHigh(max, reads_) <==>
              if r == None then PassedHigh(max, reads_[..|reads_| - 1])
              else r.value > max * 90 / 100 || (r.value >= max * 85 / 100 && PassedHigh(max, reads_[..|reads_| - 1]))
  {
    var front := reads_[..|reads_| - 1];
    assert forall i :: 0 <= i < |front| ==> front[i] == reads_[i];
    if k :| 0 <= k < |front| && front[k].Some? && front[k].value > max * 90 / 100
            && forall j :: k < j < |front| && front[j].Some? ==> front[j].value >= max * 85 / 100 {
      assert reads_[k] == front[k];
    }
    if k :| 0 <= k < |front| && reads_[k].Some? && reads_[k].value > max * 90 / 100
            && forall j :: k < j < |reads_| && reads_[j].Some? ==> reads_[j].value >= max * 85 / 100 {
      assert front[k] == reads_[k];
    }
  }

  /** The guard remembers one thing. Readings between the thresholds and failed reads change
      nothing. */
  lemma {:induction false} GuardRemembers(max: nat, reads_: seq<Option<int>>)
    ensures GuardAfter(max, reads_) <==> PassedHigh(max, reads_)
  {
    hide PassedHigh;
    if |reads_| > 0 {
      GuardRemembers(max, reads_[..|reads_| - 1]);
      PassedHighExtends(max, reads_);
      SharesInNumbers(max);
      ThresholdsInOrder(max);
    } else {
      NothingRead(max, reads_);
    }
  }

  lemma NothingRead(max: nat, reads_: seq<Option<int>>)
    requires |reads_| == 0
    ensures !PassedHigh(max, reads_)
  {
  }

  /** The check at the head of the /ws handler. */
  predicate Admits(overloaded: bool) { !overloaded }

  /** The flag shared by the guard and the handlers, with what the guard has read so far. */
  class Guard {
    const cgroupMax: nat
    var overloaded: bool
    var rejected: nat // answers with 503
    ghost var history: seq<Option<int>>

    ghost predicate Valid()
      reads this
    {
      overloaded == GuardAfter(cgroupMax, history)
    }

    constructor (cgroupMax: nat)
      ensures Valid() && this.cgroupMax == cgroupMax && rejected == 0 && history == []
    {
      this.cgroupMax := cgroupMax;
      overloaded, rejected, history := false, 0, [];
    }

    method Tick(current: Option<int>)
      requires Valid()
      modifies this`overloaded, this`history
      ensures Valid() && history == old(history) + [current]
      ensures overloaded == GuardNext(cgroupMax, old(overloaded), current)
      ensures overloaded <==> PassedHigh(cgroupMax, history)
    {
      history := history + [current];
      GuardRemembers(cgroupMax, history);
      assert history[..|history| - 1] == old(history);
      if current == None {
        return;
      }
      var high, low := High(cgroupMax), Low(cgroupMax);
      if current.value > high && !overloaded {
        overloaded := true;
      } else if current.value < low && overloaded {
        overloaded := false;
      }
    }

    /** A request is turned away, and counted, exactly when a reading was above the upper threshold
        and none since then below the lower one. */
    method Admit() returns (upgrade: bool)
      requires Valid()
      modifies this`rejected
      ensures Valid()
      ensures upgrade <==> !PassedHigh(cgroupMax, history)
      ensures rejected == old(rejected) + (if upgrade then 0 else 1)
    {
      GuardRemembers(cgroupMax, history);
      if overloaded {
        rejected := rejected + 1;
        return false;
      }
      return true;
    }
  }

  // ------------------------------------------------ how often it can flip

  /** The state of the guard, with the flips so far, the distance the readings have travelled, and
      the last reading. */
  datatype Trace = Trace(overloaded: bool, flips: nat, travelled: nat, reading: int)

  ghost function Observe(max: nat, t: Trace, r: Option<int>): Trace {
    match r
    case None => t
    case Some(c) =>
      var now := GuardNext(max, t.overloaded, r);
      Trace(now, if now != t.overloaded then t.flips + 1 else t.flips, t.travelled + Abs(c - t.reading), c)
  }

  ghost function ObserveAll(max: nat, first: int, reads_: seq<Option<int>>): Trace {
    if |reads_| == 0 then Trace(false, 0, 0, first)
    else Observe(max, ObserveAll(max, first, reads_[..|reads_| - 1]), reads_[|reads_| - 1])
  }

  /** What one flip and the next have to cover: from above high to below low or back. */
  ghost function Gap(max: nat): nat { High(max) - Low(max) + 2 }

  /** How much of the way to the next flip the last reading has left. */
  ghost predicate Covered(max: nat, t: Trace) {
    t.flips >= 1 ==>
      && t.travelled >= (t.flips - 1) * Gap(max)
      && t.travelled >= (t.flips - 1) * Gap(max)
         + (if t.overloaded then High(max) + 1 - t.reading else t.reading - (Low(max) - 1))
  }

  lemma ObserveCovers(max: nat, t: Trace, r: Option<int>)
    requires Covered(max, t) && (t.flips == 0 ==> !t.overloaded)
    ensures Covered(max, Observe(max, t, r))
  {
    hide Share;
    ThresholdsInOrder(max);
    var t' := Observe(max, t, r);
    if t.flips >= 1 && t'.flips == t.flips + 1 {
      OneMore(t.flips - 1, Gap(max));
    }
  }

  lemma {:induction false} ObserveAllCovers(max: nat, first: int, reads_: seq<Option<int>>)
    ensures var t := ObserveAll(max, first, reads_);
            && t.overloaded == GuardAfter(max, reads_)
            && Covered(max, t)
            && (t.flips == 0 ==> !t.overloaded)
  {
    if |reads_| > 0 {
      var front := reads_[..|reads_| - 1];
      ObserveAllCovers(max, first, front);
      ObserveCovers(max, ObserveAll(max, first, front), reads_[|reads_| - 1]);
    }
  }

  /** Flapping is bounded: k flips need readings that travel (k - 1) times the gap. */
  lemma FlipsNeedTravel(max: nat, first: int, reads_: seq<Option<int>>)
    ensures var t := ObserveAll(max, first, reads_);
            t.flips >= 1 ==> t.travelled >= (t.flips - 1) * (max * 90 / 100 - max * 85 / 100 + 2)
  {
    ObserveAllCovers(max, first, reads_);
    SharesInNumbers(max);
  }

  /** And that is the exact price: readings one byte outside either threshold in turn. */
  lemma {:induction false} FlipsCanCostThat(max: nat, k: nat) returns (reads_: seq<Option<int>>)
    requires max >= 20 && k >= 1
    ensures forall r :: r in reads_ ==> r.Some? && r.value > 0
    ensures var t := ObserveAll(max, High(max) + 1, reads_);
            && t.flips == k
            && t.travelled == (k - 1) * (max * 90 / 100 - max * 85 / 100 + 2)
            && t.reading == if t.overloaded then High(max) + 1 else Low(max) - 1
  {
    hide Share;
    SharesInNumbers(max);
    ThresholdsInOrder(max);
    if k == 1 {
      reads_ := [Some(High(max) + 1)];
      assert reads_[..0] == [];
    } else {
      var before := FlipsCanCostThat(max, k - 1);
      var t := ObserveAll(max, High(max) + 1, before);
      reads_ := before + [Some(if t.overloaded then Low(max) - 1 else High(max) + 1)];
      assert reads_[..|before|] == before;
      OneMore(k - 2, Gap(max));
    }
  }
}
