/** The send loop: ticks of 100 ms, batches of connections in turn, so many per tick that a round
    of all of them takes one interval. Fractions of a connection are carried over to the next tick;
    here the carry is the exact numerator over the interval. */
module Sender {
  import opened Arithmetic
  import opened Cyclic
  import opened Registry
  import opened RegistryLaws

  /** 100 ms, in nanoseconds as the interval is. */
  const STEP: nat := 100_000_000

  datatype Sched = Sched(carry: nat, cursor: nat)

  /** Connections due at a tick, and the carry that is left: the whole intervals in the old carry
      and the new share, and the rest. */
  ghost function Due(interval: nat, carry: nat, total: nat): (nat, nat)
    requires interval > 0
  {
    var share := carry + total * STEP;
    (Laps(share, interval), Wrap(share, interval))
  }

  lemma DueIsExact(interval: nat, carry: nat, total: nat)
    requires interval > 0
    ensures var (n, rest) := Due(interval, carry, total);
            n * interval + rest == carry + total * STEP && rest < interval
  {
    LapsAndRest(carry + total * STEP, interval);
  }

  class SendLoop<C(==, !new)> {
    const interval: nat
    var carry: nat
    var cursor: nat
    var batch: seq<C>

    constructor (interval: nat)
      requires interval > 0
      ensures this.interval == interval && carry == 0 && cursor == 0 && batch == []
    {
      this.interval := interval;
      carry, cursor, batch := 0, 0, [];
    }

    /** total is the length the registry had when the tick asked for it. */
    method Accrue(total: nat) returns (n: nat)
      requires interval > 0
      modifies this`carry
      ensures (n, carry) == Due(interval, old(carry), total)
      ensures n * interval + carry == old(carry) + total * STEP && carry < interval
    {
      DueIsExact(interval, carry, total);
      ghost var (due, rest) := Due(interval, carry, total);
      carry := carry + total * STEP;
      DivUnique(carry, interval, due, rest);
      n := carry / interval;
      carry := carry - n * interval;
    }

    /** The registry may have changed in any way since n was computed, and the cursor may be past
        its end: still nobody is sent two messages, only stored connections get one, as many as
        asked for or all, and the cursor is inside the list again. */
    method Take(reg: Store<C>, n: nat)
      requires reg.Valid()
      modifies this`batch, this`cursor
      ensures (batch, cursor) == Batch(reg.View().conns, old(cursor), n)
      ensures Distinct(batch) && forall c :: c in batch ==> c in reg.View().conns
      ensures |batch| == if n > |reg.View().conns| then |reg.View().conns| else n
      ensures |reg.View().conns| > 0 ==> cursor < |reg.View().conns|
    {
      BatchHasNoRepeats(reg.View(), cursor, n);
      batch, cursor := reg.TakeBatch(cursor, n);
    }

    method Tick(reg: Store<C>)
      requires reg.Valid() && interval > 0
      modifies this`carry, this`batch, this`cursor
      ensures (batch, Sched(carry, cursor))
              == TickOf(interval, reg.View().conns, Sched(old(carry), old(cursor)))
    {
      var total := reg.Len();
      var n := Accrue(total);
      Take(reg, n);
    }
  }

  /** One tick over a registry that does not change meanwhile. */
  ghost function TickOf<C>(interval: nat, conns: seq<C>, s: Sched): (seq<C>, Sched)
    requires interval > 0
  {
    var (n, carry) := Due(interval, s.carry, |conns|);
    var (batch, cursor) := Batch(conns, s.cursor, n);
    (batch, Sched(carry, cursor))
  }

  // ------------------------------------------------ nothing is lost in the carry

  ghost function Sum(xs: seq<nat>): nat {
    if |xs| == 0 then 0 else Sum(xs[..|xs| - 1]) + xs[|xs| - 1]
  }

  /** The carry after ticks that found these totals. */
  ghost function CarryAfter(interval: nat, carry: nat, totals: seq<nat>): nat
    requires interval > 0
  {
    if |totals| == 0 then carry
    else Due(interval, CarryAfter(interval, carry, totals[..|totals| - 1]), totals[|totals| - 1]).1
  }

  /** What those ticks asked for. */
  ghost function AskedFor(interval: nat, carry: nat, totals: seq<nat>): nat
    requires interval > 0
  {
    if |totals| == 0 then 0
    else AskedFor(interval, carry, totals[..|totals| - 1])
         + Due(interval, CarryAfter(interval, carry, totals[..|totals| - 1]), totals[|totals| - 1]).0
  }

  /** Whatever totals the ticks find, what was asked for and the carry add up to the exact sum of
      the shares, and the carry is less than one connection. */
  lemma {:induction false} CarryConserves(interval: nat, carry: nat, totals: seq<nat>)
    requires interval > 0 && carry < interval
    ensures AskedFor(interval, carry, totals) * interval + CarryAfter(interval, carry, totals)
            == carry + Sum(totals) * STEP
    ensures CarryAfter(interval, carry, totals) < interval
  {
    if |totals| > 0 {
      var front, last := totals[..|totals| - 1], totals[|totals| - 1];
      CarryConserves(interval, carry, front);
      var before := CarryAfter(interval, carry, front);
      DueIsExact(interval, before, last);
      Distribute(AskedFor(interval, carry, front), Due(interval, before, last).0, interval);
    }
  }

  // ------------------------------------------------ an unchanged registry

  /** Carry and number of connections asked for after t ticks over n connections. */
  ghost function CarryAt(interval: nat, n: nat, carry: nat, t: nat): nat
    requires interval > 0
  {
    if t == 0 then carry else Due(interval, CarryAt(interval, n, carry, t - 1), n).1
  }

  ghost function SentBy(interval: nat, n: nat, carry: nat, t: nat): nat
    requires interval > 0
  {
    if t == 0 then 0
    else SentBy(interval, n, carry, t - 1) + Due(interval, CarryAt(interval, n, carry, t - 1), n).0
  }

  /** SentBy is the whole part of (carry + t * n * STEP) / interval. */
  lemma {:induction false} SentByIsFloor(interval: nat, n: nat, carry: nat, t: nat)
    requires interval > 0 && carry < interval
    ensures SentBy(interval, n, carry, t) * interval + CarryAt(interval, n, carry, t) == carry + t * (n * STEP)
    ensures CarryAt(interval, n, carry, t) < interval
  {
    if t > 0 {
      SentByIsFloor(interval, n, carry, t - 1);
      var before := CarryAt(interval, n, carry, t - 1);
      DueIsExact(interval, before, n);
      Distribute(SentBy(interval, n, carry, t - 1), Due(interval, before, n).0, interval);
      Distribute(t - 1, 1, n * STEP);
    }
  }

  /** From the numbers to the ticks: p connections have been sent by tick t exactly when the
      shares add up to p. */
  lemma SentAtLeast(interval: nat, n: nat, carry: nat, t: nat, p: nat)
    requires interval > 0 && carry < interval
    ensures SentBy(interval, n, carry, t) >= p <==> carry + t * (n * STEP) >= p * interval
  {
    SentByIsFloor(interval, n, carry, t);
    var sent := SentBy(interval, n, carry, t);
    if sent >= p {
      MulMonotone(p, sent, interval);
    } else {
      MulMonotone(sent + 1, p, interval);
      Distribute(sent, 1, interval);
    }
  }

  /** With an interval of at least one step no tick asks for more than all connections. */
  lemma CapNeverBinds(interval: nat, n: nat, carry: nat)
    requires interval >= STEP && carry < interval
    ensures Due(interval, carry, n).0 <= n
  {
    DueIsExact(interval, carry, n);
    var asked := Due(interval, carry, n).0;
    if asked > n {
      MulMonotone(n + 1, asked, interval);
      Distribute(n, 1, interval);
      MulMonotone(STEP, interval, n);
    }
  }

  /** With a shorter interval some tick does, so the cap drops messages. */
  lemma ShortIntervalBinds(interval: nat, n: nat, carry: nat)
    requires 0 < interval < STEP && carry < interval && n > 0
    ensures exists t :: 0 <= t < interval && Due(interval, CarryAt(interval, n, carry, t), n).0 > n
  {
    var per := n * STEP;
    assert per >= n * interval + n by {
      MulMonotone(interval + 1, STEP, n);
      Distribute(interval, 1, n);
    }
    MulMonotone(n * interval + n, per, interval);
    MulMonotone(1, n, interval);
    Distribute(n * interval, n, interval);
    Distribute(interval * n, 1, interval);
    assert carry + interval * per >= (interval * n + 1) * interval;
    SentAtLeast(interval, n, carry, interval, interval * n + 1);
    if forall t :: 0 <= t < interval ==> Due(interval, CarryAt(interval, n, carry, t), n).0 <= n {
      AtMostAll(interval, n, carry, interval);
    }
  }

  lemma {:induction false} AtMostAll(interval: nat, n: nat, carry: nat, t: nat)
    requires interval > 0
    requires forall u :: 0 <= u < t ==> Due(interval, CarryAt(interval, n, carry, u), n).0 <= n
    ensures SentBy(interval, n, carry, t) <= t * n
  {
    if t > 0 {
      AtMostAll(interval, n, carry, t - 1);
      Distribute(t - 1, 1, n);
    }
  }

  /** The cap never binds, from any carry on, exactly when the interval is at least one step. */
  lemma CapExactly(interval: nat, n: nat)
    requires interval > 0 && n > 0
    ensures (forall carry: nat, t: nat :: carry < interval ==>
               Due(interval, CarryAt(interval, n, carry, t), n).0 <= n)
            <==> interval >= STEP
  {
    if interval >= STEP {
      forall carry: nat, t: nat | carry < interval
        ensures Due(interval, CarryAt(interval, n, carry, t), n).0 <= n
      {
        SentByIsFloor(interval, n, carry, t);
        CapNeverBinds(interval, n, CarryAt(interval, n, carry, t));
      }
    } else {
      ShortIntervalBinds(interval, n, 0);
    }
  }

  // ------------------------------------------------ spacing

  /** The scheduler after t ticks, and the batch of tick t. */
  ghost function SchedAt<C>(interval: nat, conns: seq<C>, s: Sched, t: nat): Sched
    requires interval > 0
  {
    if t == 0 then s else TickOf(interval, conns, SchedAt(interval, conns, s, t - 1)).1
  }

  ghost function BatchAt<C>(interval: nat, conns: seq<C>, s: Sched, t: nat): seq<C>
    requires interval > 0
  {
    TickOf(interval, conns, SchedAt(interval, conns, s, t)).0
  }

  /** What the spacing results assume: a non-empty registry without repeats (every reachable one),
      an interval of at least one step, and a carry as every tick leaves it. The cursor may be
      anywhere: earlier removals can have left it past the end of the list. */
  ghost predicate Steady<C>(interval: nat, conns: seq<C>, s: Sched) {
    && interval >= STEP
    && |conns| > 0
    && Distinct(conns)
    && s.carry < interval
  }

  /** What tick t asks for. */
  ghost function DueAt(interval: nat, n: nat, carry: nat, t: nat): nat
    requires interval > 0
  {
    Due(interval, CarryAt(interval, n, carry, t), n).0
  }

  lemma DueAtFits(interval: nat, n: nat, carry: nat, t: nat)
    requires interval >= STEP && carry < interval
    ensures DueAt(interval, n, carry, t) <= n
    ensures SentBy(interval, n, carry, t + 1) == SentBy(interval, n, carry, t) + DueAt(interval, n, carry, t)
  {
    SentByIsFloor(interval, n, carry, t);
    CapNeverBinds(interval, n, CarryAt(interval, n, carry, t));
  }

  /** The scheduler's own variables after t ticks, with the cursor wrapped into the list. */
  lemma {:induction false} SteadySched<C(!new)>(interval: nat, conns: seq<C>, s: Sched, t: nat)
    requires Steady(interval, conns, s)
    ensures var now := SchedAt(interval, conns, s, t);
            && now.carry == CarryAt(interval, |conns|, s.carry, t)
            && Wrap(now.cursor, |conns|) == Wrap(s.cursor + SentBy(interval, |conns|, s.carry, t), |conns|)
  {
    hide Due, Wrap;
    if t > 0 {
      var n := |conns|;
      var before := SchedAt(interval, conns, s, t - 1);
      var sent, due := SentBy(interval, n, s.carry, t - 1), DueAt(interval, n, s.carry, t - 1);
      SteadySched(interval, conns, s, t - 1);
      DueAtFits(interval, n, s.carry, t - 1);
      WrapAdd(before.cursor, due, n);
      WrapAdd(before.cursor + due, 0, n);
      WrapAdd(s.cursor + sent, due, n);
    }
  }

  /** The batch of tick t is a piece of the walk, from what was sent before to what was sent after. */
  lemma SteadyBatch<C(!new)>(interval: nat, conns: seq<C>, s: Sched, t: nat)
    requires Steady(interval, conns, s)
    ensures var sent, n := SentBy(interval, |conns|, s.carry, t), DueAt(interval, |conns|, s.carry, t);
            && n <= |conns| && SentBy(interval, |conns|, s.carry, t + 1) == sent + n
            && BatchAt(interval, conns, s, t) == Walk(conns, Wrap(s.cursor + sent, |conns|), n)
  {
    hide Due, Wrap, SchedAt, SentBy, CarryAt;
    SteadySched(interval, conns, s, t);
    DueAtFits(interval, |conns|, s.carry, t);
    WalkSplit(conns, SchedAt(interval, conns, s, t).cursor, 0, DueAt(interval, |conns|, s.carry, t));
  }

  /** p is the number of visits made before this one: connection x is visited in tick t exactly
      when one of the visits of that tick falls on it. */
  ghost predicate FallsOn(n: nat, cursor: nat, p: nat, x: nat)
    requires n > 0
  {
    Wrap(cursor + p, n) == x
  }

  ghost predicate VisitIn<C>(interval: nat, conns: seq<C>, s: Sched, t: nat, p: nat)
    requires interval > 0
  {
    SentBy(interval, |conns|, s.carry, t) <= p < SentBy(interval, |conns|, s.carry, t + 1)
  }

  /** Connection x is in the batch of tick t. */
  ghost predicate Visited<C>(interval: nat, conns: seq<C>, s: Sched, x: nat, t: nat)
    requires interval > 0 && x < |conns|
  {
    conns[x] in BatchAt(interval, conns, s, t)
  }

  lemma VisitNumber<C(!new)>(interval: nat, conns: seq<C>, s: Sched, t: nat, x: nat) returns (p: nat)
    requires Steady(interval, conns, s) && x < |conns|
    requires Visited(interval, conns, s, x, t)
    ensures VisitIn(interval, conns, s, t, p) && FallsOn(|conns|, s.cursor, p, x)
  {
    hide SentBy, BatchAt, Wrap;
    SteadyBatch(interval, conns, s, t);
    var sent := SentBy(interval, |conns|, s.carry, t);
    var batch := BatchAt(interval, conns, s, t);
    var i :| 0 <= i < |batch| && batch[i] == conns[x];
    WrapAdd(s.cursor + sent, i, |conns|);
    p := sent + i;
  }

  lemma VisitHappens<C(!new)>(interval: nat, conns: seq<C>, s: Sched, t: nat, p: nat, x: nat)
    requires Steady(interval, conns, s) && x < |conns|
    requires VisitIn(interval, conns, s, t, p) && FallsOn(|conns|, s.cursor, p, x)
    ensures Visited(interval, conns, s, x, t)
  {
    hide SentBy, BatchAt, Wrap;
    SteadyBatch(interval, conns, s, t);
    var sent := SentBy(interval, |conns|, s.carry, t);
    WrapAdd(s.cursor + sent, p - sent, |conns|);
    assert BatchAt(interval, conns, s, t)[p - sent] == conns[x];
  }

  /** The tick of a visit, found between two ticks that enclose it. */
  lemma {:induction false} TickOfVisit<C>(interval: nat, conns: seq<C>, s: Sched, lo: nat, hi: nat, p: nat)
      returns (t: nat)
    requires interval > 0
    requires SentBy(interval, |conns|, s.carry, lo) <= p < SentBy(interval, |conns|, s.carry, hi) && lo <= hi
    ensures lo <= t < hi && VisitIn(interval, conns, s, t, p)
    decreases hi - lo
  {
    if SentBy(interval, |conns|, s.carry, lo + 1) > p {
      t := lo;
    } else {
      t := TickOfVisit(interval, conns, s, lo + 1, hi, p);
    }
  }

  /** When visits p and p + |conns| happen: floor or ceiling of interval / STEP ticks apart. */
  lemma RoundTakes<C>(interval: nat, conns: seq<C>, s: Sched, t1: nat, t2: nat, p: nat)
    requires Steady(interval, conns, s)
    requires VisitIn(interval, conns, s, t1, p) && VisitIn(interval, conns, s, t2, p + |conns|)
    ensures interval / STEP <= t2 - t1 <= (interval + STEP - 1) / STEP
  {
    var n, c := |conns|, s.carry;
    var per := n * STEP;
    SentAtLeast(interval, n, c, t1, p + 1);
    SentAtLeast(interval, n, c, t1 + 1, p + 1);
    SentAtLeast(interval, n, c, t2, p + n + 1);
    SentAtLeast(interval, n, c, t2 + 1, p + n + 1);
    assert c + t1 * per < (p + 1) * interval <= c + (t1 + 1) * per;
    assert c + t2 * per < (p + n + 1) * interval <= c + (t2 + 1) * per;
    Distribute(p + 1, n, interval);
    Distribute(t1, 1, per);
    Distribute(t2, 1, per);
    Distribute(t2 - t1, t1, per);
    var d := t2 - t1;
    assert (d - 1) * per < n * interval < (d + 1) * per by {
      Distribute(d, -1, per);
      Distribute(d, 1, per);
    }
    Cancel(n, d - 1, interval);
    Cancel'(n, d + 1, interval);
  }

  lemma Cancel(n: nat, k: int, interval: nat)
    requires n > 0 && k * (n * STEP) < n * interval
    ensures k * STEP < interval
  {
    assert k * (n * STEP) == (k * STEP) * n;
    if k * STEP >= interval {
      MulMonotone(interval, k * STEP, n);
    }
  }

  lemma Cancel'(n: nat, k: int, interval: nat)
    requires n > 0 && k * (n * STEP) > n * interval
    ensures k * STEP > interval
  {
    assert k * (n * STEP) == (k * STEP) * n;
    if k * STEP <= interval {
      MulMonotone(k * STEP, interval, n);
    }
  }

  lemma NextRound(n: nat, cursor: nat, p: nat, x: nat)
    requires n > 0 && FallsOn(n, cursor, p, x)
    ensures FallsOn(n, cursor, p + n, x)
  {
  }

  /** The next visit of a connection is one round of visits later. */
  lemma NextVisitNumber<C(!new)>(interval: nat, conns: seq<C>, s: Sched, x: nat, t1: nat, t2: nat, p1: nat, p2: nat)
    requires Steady(interval, conns, s) && x < |conns| && t1 < t2
    requires VisitIn(interval, conns, s, t1, p1) && FallsOn(|conns|, s.cursor, p1, x)
    requires VisitIn(interval, conns, s, t2, p2) && FallsOn(|conns|, s.cursor, p2, x)
    requires forall t :: t1 < t < t2 ==> !Visited(interval, conns, s, x, t)
    ensures p2 == p1 + |conns|
  {
    hide SentBy, BatchAt, Wrap, SchedAt, CarryAt;
    var n := |conns|;
    var q := p1 + n;
    NextRound(n, s.cursor, p1, x);
    SentByMonotone(interval, n, s.carry, t1 + 1, t2);
    SteadyBatch(interval, conns, s, t1);
    SteadyBatch(interval, conns, s, t2);
    if q < SentBy(interval, n, s.carry, t2) {
      var t := TickOfVisit(interval, conns, s, t1 + 1, t2, q);
      VisitHappens(interval, conns, s, t, q, x);
    } else if p2 < q {
      WrapInjective(s.cursor + p1, s.cursor + p2, n);
    } else if p2 > q {
      WrapInjective(s.cursor + q, s.cursor + p2, n);
    }
  }

  /** x is visited in tick t1, next in tick t2, and not between. */
  ghost predicate Consecutive<C>(interval: nat, conns: seq<C>, s: Sched, x: nat, t1: nat, t2: nat)
    requires interval > 0 && x < |conns|
  {
    && t1 < t2
    && Visited(interval, conns, s, x, t1)
    && Visited(interval, conns, s, x, t2)
    && forall t :: t1 < t < t2 ==> !Visited(interval, conns, s, x, t)
  }

  /** Spacing: consecutive visits of a connection are floor(interval / STEP) or
      ceil(interval / STEP) ticks apart, so exactly interval / STEP when it divides. */
  lemma VisitsAreSpaced<C(!new)>(interval: nat, conns: seq<C>, s: Sched, x: nat)
    requires Steady(interval, conns, s) && x < |conns|
    ensures forall t1: nat, t2: nat :: Consecutive(interval, conns, s, x, t1, t2) ==>
              && interval / STEP <= t2 - t1 <= (interval + STEP - 1) / STEP
              && (interval % STEP == 0 ==> t2 - t1 == interval / STEP)
  {
    forall t1: nat, t2: nat | Consecutive(interval, conns, s, x, t1, t2)
      ensures interval / STEP <= t2 - t1 <= (interval + STEP - 1) / STEP
    {
      var p1 := VisitNumber(interval, conns, s, t1, x);
      var p2 := VisitNumber(interval, conns, s, t2, x);
      assert forall t :: t1 < t < t2 ==> !Visited(interval, conns, s, x, t);
      NextVisitNumber(interval, conns, s, x, t1, t2, p1, p2);
      RoundTakes(interval, conns, s, t1, t2, p1);
    }
  }

  /** With the default interval of 30 seconds: every 300 ticks, from any state of the carry. */
  lemma DefaultSpacing<C(!new)>(conns: seq<C>, s: Sched, x: nat)
    requires Distinct(conns) && x < |conns| && s.carry < 30_000_000_000
    ensures exists t :: 0 <= t < 300 && Visited(30_000_000_000, conns, s, x, t)
    ensures forall t1: nat, t2: nat :: Consecutive(30_000_000_000, conns, s, x, t1, t2) ==> t2 == t1 + 300
  {
    var t := FirstVisit(30_000_000_000, conns, s, x);
    VisitsAreSpaced(30_000_000_000, conns, s, x);
  }

  lemma {:induction false} SentByMonotone(interval: nat, n: nat, carry: nat, t: nat, u: nat)
    requires interval > 0 && t <= u
    ensures SentBy(interval, n, carry, t) <= SentBy(interval, n, carry, u)
    decreases u
  {
    if t < u {
      SentByMonotone(interval, n, carry, t, u - 1);
    }
  }

  /** And there is always a next visit, that much later. */
  lemma AlwaysVisitedAgain<C(!new)>(interval: nat, conns: seq<C>, s: Sched, x: nat)
    requires Steady(interval, conns, s) && x < |conns|
    ensures forall t1: nat :: Visited(interval, conns, s, x, t1) ==>
              exists t2: nat :: interval / STEP <= t2 - t1 <= (interval + STEP - 1) / STEP
                           && Visited(interval, conns, s, x, t2)
  {
    forall t1: nat | Visited(interval, conns, s, x, t1)
      ensures exists t2: nat :: interval / STEP <= t2 - t1 <= (interval + STEP - 1) / STEP
                           && Visited(interval, conns, s, x, t2)
    {
      var t2 := NextVisit(interval, conns, s, x, t1);
      assert Visited(interval, conns, s, x, t2);
    }
  }

  lemma NextVisit<C(!new)>(interval: nat, conns: seq<C>, s: Sched, x: nat, t1: nat) returns (t2: nat)
    requires Steady(interval, conns, s) && x < |conns| && Visited(interval, conns, s, x, t1)
    ensures Visited(interval, conns, s, x, t2)
    ensures interval / STEP <= t2 - t1 <= (interval + STEP - 1) / STEP
  {
    hide SentBy, BatchAt, Wrap, SchedAt, CarryAt;
    var n, c := |conns|, s.carry;
    var p := VisitNumber(interval, conns, s, t1, x);
    var late := (interval + STEP - 1) / STEP;
    SentAtLeast(interval, n, c, t1 + 1, p + 1);
    SentAtLeast(interval, n, c, t1 + 1 + late, p + n + 1);
    RoundFits(interval, n, late);
    Distribute(t1 + 1, late, n * STEP);
    Distribute(p + 1, n, interval);
    t2 := TickOfVisit(interval, conns, s, t1, t1 + 1 + late, p + n);
    NextRound(n, s.cursor, p, x);
    VisitHappens(interval, conns, s, t2, p + n, x);
    RoundTakes(interval, conns, s, t1, t2, p);
  }

  lemma RoundFits(interval: nat, n: nat, ticks: nat)
    requires ticks * STEP >= interval
    ensures ticks * (n * STEP) >= n * interval
  {
    MulMonotone(interval, ticks * STEP, n);
    assert ticks * (n * STEP) == (ticks * STEP) * n;
  }

  /** From the start every connection is visited within ceil(interval / STEP) ticks. */
  lemma FirstVisit<C(!new)>(interval: nat, conns: seq<C>, s: Sched, x: nat) returns (t: nat)
    requires Steady(interval, conns, s) && x < |conns|
    ensures t < (interval + STEP - 1) / STEP && Visited(interval, conns, s, x, t)
  {
    var n := |conns|;
    var late := (interval + STEP - 1) / STEP;
    RoundFits(interval, n, late);
    SentAtLeast(interval, n, s.carry, late, n);
    var p := RoundVisits(conns, s.cursor, x);
    t := TickOfVisit(interval, conns, s, 0, late, p);
    VisitHappens(interval, conns, s, t, p, x);
  }
}
