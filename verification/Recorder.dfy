/** The benchmark recorder: when its loop stops, and which sample it reports as the peak. Factors
    such as 1.005 are written as ratios of integers. */
module Recorder {
  import opened Wrappers

  /** What the loop and the summary read of one sample; target 0 stands for none. */
  datatype Sample = Sample(serverConns: Option<nat>, cgMemory: Option<nat>, running: bool, target: nat)

  /** The readings of the clock in one pass of the loop, in program order. */
  datatype Clock = Clock(best: real, reach: real, hold: real, plateau: real, limit: real)

  datatype Pass = Pass(sample: Sample, clock: Clock)

  datatype Config = Config(hold: real, plateau: real, max: real)

  datatype Reason = ContainerStopped | TargetHeld | NoGrowth | TimeLimit

  /** The variables of the loop. */
  datatype Record = Record(best: Option<nat>, bestAt: real, reachedAt: Option<real>)

  /** Seconds between samples. */
  const STEP: real := 2.0

  function Conns(s: Sample): nat {
    match s.serverConns
    case None => 0
    case Some(n) => n
  }

  /** conns > 1.005 * best. */
  predicate Exceeds(conns: nat, best: nat) { 1000 * conns > 1005 * best }

  predicate Meets(s: Sample) { s.target > 0 && Conns(s) >= s.target }

  ghost function Update(r: Record, p: Pass): Record {
    var conns := Conns(p.sample);
    var r1 := if r.best == None || Exceeds(conns, r.best.value)
              then r.(best := Some(conns), bestAt := p.clock.best) else r;
    if p.sample.running && Meets(p.sample) && r1.reachedAt == None
    then r1.(reachedAt := Some(p.clock.reach)) else r1
  }

  /** Why the loop stops in this pass, given the variables as the pass has updated them. */
  ghost function Verdict(cfg: Config, start: real, r: Record, p: Pass): Option<Reason> {
    if !p.sample.running then Some(ContainerStopped)
    else if Meets(p.sample) && r.reachedAt.Some? && p.clock.hold - r.reachedAt.value >= cfg.hold then Some(TargetHeld)
    else if p.clock.plateau - r.bestAt >= cfg.plateau then Some(NoGrowth)
    else if p.clock.limit - start >= cfg.max then Some(TimeLimit)
    else None
  }

  ghost function After(start: real, passes: seq<Pass>): Record {
    if |passes| == 0 then Record(None, start, None)
    else Update(After(start, passes[..|passes| - 1]), passes[|passes| - 1])
  }

  /** What pass k would decide, were it reached. */
  ghost function Decision(cfg: Config, start: real, passes: seq<Pass>, k: nat): Option<Reason>
    requires k < |passes|
  {
    Verdict(cfg, start, After(start, passes[..k + 1]), passes[k])
  }

  ghost predicate Undecided(cfg: Config, start: real, passes: seq<Pass>, k: nat)
    requires k <= |passes|
  {
    forall i :: 0 <= i < k ==> Decision(cfg, start, passes, i) == None
  }

  function Samples(passes: seq<Pass>): seq<Sample> {
    seq(|passes|, i requires 0 <= i < |passes| => passes[i].sample)
  }

  /** The loop, fed with as many passes as it may need; no reason if it would go on. */
  method Run(cfg: Config, start: real, passes: seq<Pass>)
    returns (reason: Option<Reason>, best: Option<nat>, rows: seq<Sample>)
    ensures |rows| <= |passes| && rows == Samples(passes[..|rows|])
    ensures best == After(start, passes[..|rows|]).best
    ensures reason == None ==> |rows| == |passes| && Undecided(cfg, start, passes, |passes|)
    ensures reason != None ==>
              && |rows| > 0
              && Undecided(cfg, start, passes, |rows| - 1)
              && Decision(cfg, start, passes, |rows| - 1) == reason
  {
    var bestAt, reachedAt := start, None;
    best, reason, rows := None, None, [];
    for k := 0 to |passes|
      invariant |rows| == k && rows == Samples(passes[..k])
      invariant Record(best, bestAt, reachedAt) == After(start, passes[..k])
      invariant Undecided(cfg, start, passes, k)
    {
      ghost var before := Record(best, bestAt, reachedAt);
      var s, clock := passes[k].sample, passes[k].clock;
      rows := rows + [s];
      var conns := Conns(s);
      if best == None || Exceeds(conns, best.value) {
        best, bestAt := Some(conns), clock.best;
      }
      assert passes[..k + 1][..k] == passes[..k];
      assert After(start, passes[..k + 1]) == Update(before, passes[k]);
      if !s.running {
        return Some(ContainerStopped), best, rows;
      }
      if Meets(s) {
        if reachedAt == None {
          reachedAt := Some(clock.reach);
        }
        if clock.hold - reachedAt.value >= cfg.hold {
          return Some(TargetHeld), best, rows;
        }
      }
      if clock.plateau - bestAt >= cfg.plateau {
        return Some(NoGrowth), best, rows;
      }
      if clock.limit - start >= cfg.max {
        return Some(TimeLimit), best, rows;
      }
      assert Decision(cfg, start, passes, k) == None;
    }
    assert passes[..|passes|] == passes;
  }

  // ------------------------------------------------ the running maximum

  ghost function MaxConns(rows: seq<Sample>): nat {
    if |rows| == 0 then 0
    else
      var before, now := MaxConns(rows[..|rows| - 1]), Conns(rows[|rows| - 1]);
      if now > before then now else before
  }

  lemma SamplesPrefix(passes: seq<Pass>)
    requires |passes| > 0
    ensures Samples(passes)[..|passes| - 1] == Samples(passes[..|passes| - 1])
  {
  }

  /** best <= the maximum so far <= 1.005 * best, after every pass. */
  lemma {:induction false} BestIsNearMaximum(start: real, passes: seq<Pass>)
    requires |passes| > 0
    ensures var r := After(start, passes);
            && r.best.Some?
            && r.best.value <= MaxConns(Samples(passes))
            && 1000 * MaxConns(Samples(passes)) <= 1005 * r.best.value
  {
    SamplesPrefix(passes);
    var front := passes[..|passes| - 1];
    if |front| > 0 {
      BestIsNearMaximum(start, front);
    } else {
      assert Samples(front) == [];
    }
  }

  // ------------------------------------------------ the reported peak

  /** A sample that can be the peak: some connections, and a reading of the cgroup. */
  predicate IsLive(s: Sample) { Conns(s) > 0 && s.cgMemory.Some? }

  function Live(rows: seq<Sample>): (live: seq<Sample>)
    ensures forall r :: r in live <==> r in rows && IsLive(r)
  {
    if |rows| == 0 then []
    else
      var front, last := rows[..|rows| - 1], rows[|rows| - 1];
      assert rows == front + [last];
      if IsLive(last) then Live(front) + [last] else Live(front)
  }

  function Top(live: seq<Sample>): (top: nat)
    ensures forall r :: r in live ==> Conns(r) <= top
    ensures |live| > 0 ==> exists i :: 0 <= i < |live| && Conns(live[i]) == top
    ensures |live| == 0 ==> top == 0
  {
    if |live| == 0 then 0
    else
      var front, last := live[..|live| - 1], live[|live| - 1];
      assert live == front + [last];
      assert live[|front|] == last && forall i :: 0 <= i < |front| ==> live[i] == front[i];
      if Conns(last) > Top(front) then Conns(last) else Top(front)
  }

  /** conns >= 0.995 * top. */
  predicate NearTop(s: Sample, top: nat) { 1000 * Conns(s) >= 995 * top }

  /** The last sample near the top, found from the end. */
  function LastNear(live: seq<Sample>, top: nat): (i: nat)
    requires exists r :: r in live && NearTop(r, top)
    ensures i < |live| && NearTop(live[i], top)
    ensures forall j :: i < j < |live| ==> !NearTop(live[j], top)
  {
    if NearTop(live[|live| - 1], top) then |live| - 1
    else
      assert live == live[..|live| - 1] + [live[|live| - 1]];
      LastNear(live[..|live| - 1], top)
  }

  lemma TopIsNear(live: seq<Sample>)
    requires |live| > 0
    ensures exists r :: r in live && NearTop(r, Top(live))
  {
    var i :| 0 <= i < |live| && Conns(live[i]) == Top(live);
    assert live[i] in live && NearTop(live[i], Top(live));
  }

  function Peak(rows: seq<Sample>): Sample
    requires |rows| > 0
  {
    var live := Live(rows);
    if |live| == 0 then rows[|rows| - 1]
    else
      TopIsNear(live);
      live[LastNear(live, Top(live))]
  }

  /** Samples whose CPU readings are averaged: conns >= 0.98 of the peak's. */
  function Window(rows: seq<Sample>): (w: seq<Sample>)
    requires |rows| > 0
  {
    InWindow(Live(rows), Conns(Peak(rows)))
  }

  function InWindow(live: seq<Sample>, conns: nat): (w: seq<Sample>) {
    if |live| == 0 then []
    else
      var front, last := live[..|live| - 1], live[|live| - 1];
      if 1000 * Conns(last) >= 980 * conns then InWindow(front, conns) + [last] else InWindow(front, conns)
  }

  /** Some sample with the most connections also shows the cgroup, if there are connections. */
  ghost predicate MaximumIsLive(rows: seq<Sample>) {
    MaxConns(rows) > 0 ==> exists r :: r in rows && IsLive(r) && Conns(r) == MaxConns(rows)
  }

  lemma {:induction false} MaxConnsIsBound(rows: seq<Sample>)
    ensures forall r :: r in rows ==> Conns(r) <= MaxConns(rows)
    ensures |rows| > 0 ==> exists i :: 0 <= i < |rows| && Conns(rows[i]) == MaxConns(rows)
  {
    if |rows| > 0 {
      var front, last := rows[..|rows| - 1], rows[|rows| - 1];
      assert rows == front + [last];
      MaxConnsIsBound(front);
      assert rows[|front|] == last && forall i :: 0 <= i < |front| ==> rows[i] == front[i];
    }
  }

  lemma MaxConnsIsTop(rows: seq<Sample>)
    requires MaximumIsLive(rows)
    ensures MaxConns(rows) == Top(Live(rows))
  {
    MaxConnsIsBound(rows);
    var live := Live(rows);
    if |live| > 0 {
      var i :| 0 <= i < |live| && Conns(live[i]) == Top(live);
      assert live[i] in live;
    }
  }

  /** The running maximum and the reported peak are within half a percent of each other. */
  ghost predicate PeaksAgree(start: real, passes: seq<Pass>)
    requires |passes| > 0
  {
    var best := After(start, passes).best;
    var peak := Conns(Peak(Samples(passes)));
    best.Some? && 1000 * peak >= 995 * best.value && 1000 * peak <= 1005 * best.value
  }

  /** The loop's running maximum and the summary's peak agree, although one looks forward and one
      looks back, if a sample with the most connections has its cgroup reading. */
  lemma OnlineAndOfflinePeaksAgree(start: real, passes: seq<Pass>)
    requires |passes| > 0 && MaximumIsLive(Samples(passes))
    ensures PeaksAgree(start, passes)
  {
    var rows := Samples(passes);
    BestIsNearMaximum(start, passes);
    MaxConnsIsTop(rows);
    MaxConnsIsBound(rows);
    var live := Live(rows);
    if |live| == 0 {
      assert rows[|rows| - 1] in rows;
    } else {
      TopIsNear(live);
      assert live[LastNear(live, Top(live))] in live;
    }
  }

  /** One more live sample: it is the last near the top, or the last is where it was. */
  lemma LastNearAppend(live: seq<Sample>, x: Sample, top: nat)
    requires NearTop(x, top) || exists r :: r in live && NearTop(r, top)
    ensures exists r :: r in live + [x] && NearTop(r, top)
    ensures (live + [x])[LastNear(live + [x], top)] == if NearTop(x, top) then x else live[LastNear(live, top)]
  {
    var longer := live + [x];
    assert longer[|live|] == x && longer[..|longer| - 1] == live;
    assert x in longer && forall r :: r in live ==> r in longer;
  }

  lemma LiveStep(rows: seq<Sample>)
    requires |rows| > 0
    ensures var front, last := rows[..|rows| - 1], rows[|rows| - 1];
            Live(rows) == if IsLive(last) then Live(front) + [last] else Live(front)
  {
  }

  /** The last live sample near the top is the last such row. */
  lemma {:induction false} LastNearInRows(rows: seq<Sample>, top: nat) returns (i: nat)
    requires exists r :: r in Live(rows) && NearTop(r, top)
    ensures i < |rows| && rows[i] == Live(rows)[LastNear(Live(rows), top)]
    ensures IsLive(rows[i]) && NearTop(rows[i], top)
    ensures forall j :: i < j < |rows| && IsLive(rows[j]) ==> !NearTop(rows[j], top)
  {
    hide NearTop, IsLive, Live, LastNear;
    LiveStep(rows);
    var front, last := rows[..|rows| - 1], rows[|rows| - 1];
    if IsLive(last) && NearTop(last, top) {
      i := |front|;
      LastNearAppend(Live(front), last, top);
    } else {
      i := LastNearInRows(front, top);
      if IsLive(last) {
        LastNearAppend(Live(front), last, top);
      }
    }
  }

  /** What makes a sample live, by its fields: the server and its cgroup were both read, and there
      were connections. */
  ghost predicate Connected(s: Sample) {
    s.serverConns.Some? && s.serverConns.value > 0 && s.cgMemory.Some?
  }

  /** The peak is the last sample with connections and a cgroup reading, in the order of the rows,
      whose connections are within 0.5% of the most that any such sample shows. */
  lemma PeakIsSettled(rows: seq<Sample>) returns (i: nat, most: nat)
    requires exists j :: 0 <= j < |rows| && Connected(rows[j])
    ensures exists j :: 0 <= j < |rows| && Connected(rows[j]) && rows[j].serverConns == Some(most)
    ensures forall j :: 0 <= j < |rows| && Connected(rows[j]) ==> rows[j].serverConns.value <= most
    ensures i < |rows| && Peak(rows) == rows[i]
    ensures Connected(rows[i]) && 1000 * rows[i].serverConns.value >= 995 * most
    ensures forall j :: i < j < |rows| && Connected(rows[j]) ==> 1000 * rows[j].serverConns.value < 995 * most
    ensures Peak(rows) in Window(rows)
  {
    hide Live, LastNear, Top;
    var live := Live(rows);
    assert forall j :: 0 <= j < |rows| ==> rows[j] in rows;
    var j :| 0 <= j < |rows| && IsLive(rows[j]);
    assert rows[j] in live;
    most := Top(live);
    var t :| 0 <= t < |live| && Conns(live[t]) == most;
    assert live[t] in live && live[t] in rows;
    TopIsNear(live);
    i := LastNearInRows(rows, most);
    WindowExactly(rows, rows[i]);
  }

  /** With no such sample it is the last one. */
  lemma PeakOfNoneLive(rows: seq<Sample>)
    requires |rows| > 0 && forall j :: 0 <= j < |rows| ==> !Connected(rows[j])
    ensures Peak(rows) == rows[|rows| - 1] && Window(rows) == []
  {
    NoneLive(rows);
  }

  lemma {:induction false} NoneLive(rows: seq<Sample>)
    requires forall r :: r in rows ==> !IsLive(r)
    ensures Live(rows) == []
  {
    if |rows| > 0 {
      var front := rows[..|rows| - 1];
      assert rows == front + [rows[|rows| - 1]];
      NoneLive(front);
    }
  }

  /** The averaged samples, as often as they occur: those with connections, at least 0.98 of the
      peak's, and a cgroup reading. */
  lemma WindowExactly(rows: seq<Sample>, r: Sample)
    requires |rows| > 0
    ensures multiset(Window(rows))[r]
            == if Connected(r) && 1000 * r.serverConns.value >= 980 * Conns(Peak(rows))
               then multiset(rows)[r] else 0
  {
    LiveMultiplicity(rows, r);
    WindowMultiplicity(Live(rows), Conns(Peak(rows)), r);
  }

  lemma {:induction false} LiveMultiplicity(rows: seq<Sample>, r: Sample)
    ensures multiset(Live(rows))[r] == if IsLive(r) then multiset(rows)[r] else 0
  {
    if |rows| > 0 {
      var front, last := rows[..|rows| - 1], rows[|rows| - 1];
      assert rows == front + [last];
      LiveMultiplicity(front, r);
    }
  }

  lemma {:induction false} WindowMultiplicity(live: seq<Sample>, conns: nat, r: Sample)
    ensures multiset(InWindow(live, conns))[r] == if 1000 * Conns(r) >= 980 * conns then multiset(live)[r] else 0
  {
    if |live| > 0 {
      var front, last := live[..|live| - 1], live[|live| - 1];
      assert live == front + [last];
      WindowMultiplicity(front, conns, r);
    }
  }

  // ------------------------------------------------ stopping

  /** The clock does not go back, and every pass begins by sleeping at least STEP. */
  ghost predicate Ticking(start: real, passes: seq<Pass>) {
    forall k :: 0 <= k < |passes| ==> TicksIn(start, passes, k)
  }

  ghost predicate TicksIn(start: real, passes: seq<Pass>, k: nat)
    requires k < |passes|
  {
    var c := passes[k].clock;
    var before := if k == 0 then start else passes[k - 1].clock.limit;
    before + STEP <= c.best <= c.reach <= c.hold <= c.plateau <= c.limit
  }

  lemma {:induction false} PassTime(start: real, passes: seq<Pass>, k: nat)
    requires Ticking(start, passes) && k < |passes|
    ensures passes[k].clock.limit >= start + STEP * (k + 1) as real
  {
    assert TicksIn(start, passes, k);
    if k > 0 {
      PassTime(start, passes, k - 1);
      assert (k + 1) as real == k as real + 1.0;
    }
  }

  /** The loop is over by the first pass whose number times STEP reaches the time limit. */
  lemma StopsInTime(cfg: Config, start: real, passes: seq<Pass>, n: nat)
    requires Ticking(start, passes) && 0 < n <= |passes| && 2.0 * n as real >= cfg.max
    ensures Decision(cfg, start, passes, n - 1) != None
    ensures !Undecided(cfg, start, passes, n)
  {
    PassTime(start, passes, n - 1);
    assert Decision(cfg, start, passes, n - 1) != None;
  }

  /** Pass i shows more than 1.005 times the best before it, or is the first. */
  ghost predicate Raises(start: real, passes: seq<Pass>, i: nat)
    requires i < |passes|
  {
    var before := After(start, passes[..i]);
    before.best == None || 1000 * Conns(passes[i].sample) > 1005 * before.best.value
  }

  /** Pass j is the last that raised best, and best and bestAt are its number and its time. */
  ghost predicate SetBest(start: real, passes: seq<Pass>, j: nat) {
    var r := After(start, passes);
    && j < |passes|
    && Raises(start, passes, j)
    && (forall i :: j < i < |passes| ==> !Raises(start, passes, i))
    && r.best == Some(match passes[j].sample.serverConns case None => 0 case Some(n) => n)
    && r.bestAt == passes[j].clock.best
    && forall i :: j < i < |passes| ==> 1000 * Conns(passes[i].sample) <= 1005 * r.best.value
  }

  lemma RaisesInPrefix(start: real, passes: seq<Pass>, i: nat)
    requires i < |passes| - 1
    ensures Raises(start, passes, i) == Raises(start, passes[..|passes| - 1], i)
  {
    assert passes[..|passes| - 1][..i] == passes[..i];
  }

  lemma LastPass(start: real, passes: seq<Pass>)
    requires |passes| > 0
    ensures var (k, r) := (|passes| - 1, After(start, passes));
            if Raises(start, passes, k) then
              r.best == Some(Conns(passes[k].sample)) && r.bestAt == passes[k].clock.best
            else
              && k > 0
              && r.best == After(start, passes[..k]).best && r.bestAt == After(start, passes[..k]).bestAt
              && 1000 * Conns(passes[k].sample) <= 1005 * r.best.value
  {
  }

  lemma {:induction false} BestWasSet(start: real, passes: seq<Pass>) returns (j: nat)
    requires |passes| > 0
    ensures SetBest(start, passes, j)
  {
    hide Raises, After;
    var front := passes[..|passes| - 1];
    LastPass(start, passes);
    if Raises(start, passes, |front|) {
      j := |front|;
    } else {
      j := BestWasSet(start, front);
      forall i | 0 <= i < |front|
        ensures Raises(start, passes, i) == Raises(start, front, i) && passes[i] == front[i]
      {
        RaisesInPrefix(start, passes, i);
      }
    }
  }

  /** A stop for lack of growth happens exactly when nothing before it in the pass stops the loop
      and the last pass that raised the maximum is at least the plateau time ago. No sample since
      then exceeds the maximum, which is that of the loop, by half a percent. */
  lemma NoGrowthExactly(cfg: Config, start: real, passes: seq<Pass>, k: nat) returns (j: nat)
    requires k < |passes|
    ensures SetBest(start, passes[..k + 1], j)
    ensures Decision(cfg, start, passes, k) == Some(NoGrowth)
            <==> && passes[k].sample.running
                 && Decision(cfg, start, passes, k) != Some(TargetHeld)
                 && passes[k].clock.plateau - passes[j].clock.best >= cfg.plateau
  {
    j := BestWasSet(start, passes[..k + 1]);
  }

  /** The container stops the loop at once; the time limit does when nothing else has, that is, when
      the target was not held and the last raise of the maximum, in pass j, is recent. */
  lemma OtherStopsExactly(cfg: Config, start: real, passes: seq<Pass>, k: nat) returns (j: nat)
    requires k < |passes|
    ensures SetBest(start, passes[..k + 1], j)
    ensures Decision(cfg, start, passes, k) == Some(ContainerStopped) <==> !passes[k].sample.running
    ensures Decision(cfg, start, passes, k) == Some(TimeLimit)
            <==> && passes[k].sample.running
                 && Decision(cfg, start, passes, k) != Some(TargetHeld)
                 && passes[k].clock.plateau - passes[j].clock.best < cfg.plateau
                 && passes[k].clock.limit - start >= cfg.max
  {
    j := BestWasSet(start, passes[..k + 1]);
  }

  /** A running container with all the connections that were asked for, and some were. */
  ghost predicate Reached(p: Pass) {
    && p.sample.running
    && p.sample.target > 0
    && p.sample.serverConns.Some? && p.sample.serverConns.value >= p.sample.target
  }

  /** reachedAt is the time of the first pass that met its target, if there was one. */
  lemma {:induction false} ReachedAtIsFirst(start: real, passes: seq<Pass>) returns (j: nat)
    ensures var r := After(start, passes);
            && j <= |passes|
            && (r.reachedAt == None <==> j == |passes|)
            && (j < |passes| ==> Reached(passes[j]) && r.reachedAt == Some(passes[j].clock.reach))
            && forall i :: 0 <= i < j ==> !Reached(passes[i])
  {
    j := 0;
    if |passes| > 0 {
      var front := passes[..|passes| - 1];
      j := ReachedAtIsFirst(start, front);
      assert forall i :: 0 <= i < |front| ==> passes[i] == front[i];
      if j == |front| && !Reached(passes[j]) {
        j := j + 1;
      }
    }
  }

  /** A stop at the target happens exactly when this sample meets its target, the container runs,
      and the first sample that met the target it saw is at least the hold time ago. */
  lemma TargetStopExactly(cfg: Config, start: real, passes: seq<Pass>, k: nat) returns (j: nat)
    requires k < |passes|
    ensures j <= k + 1 && (forall i :: 0 <= i < j ==> !Reached(passes[i])) && (j <= k ==> Reached(passes[j]))
    ensures Decision(cfg, start, passes, k) == Some(TargetHeld)
            <==> Reached(passes[k]) && passes[k].clock.hold - passes[j].clock.reach >= cfg.hold
  {
    var seen := passes[..k + 1];
    j := ReachedAtIsFirst(start, seen);
    assert forall i :: 0 <= i <= k ==> passes[i] == seen[i];
  }

  /** The loop gets to pass k and stops there with the report that the target was held. */
  ghost predicate StopsAtTarget(cfg: Config, start: real, passes: seq<Pass>, k: nat) {
    && Ticking(start, passes)
    && k < |passes|
    && Undecided(cfg, start, passes, k)
    && Decision(cfg, start, passes, k) == Some(TargetHeld)
  }

  /** The report is true: since the first sample that met its target, every sample has. */
  ghost predicate HeldThroughout(passes: seq<Pass>, k: nat)
    requires k < |passes|
  {
    forall i, j :: 0 <= i <= j <= k && Reached(passes[i]) ==> Meets(passes[j].sample)
  }

  /** With a hold or plateau time of nothing, or a time limit of two steps, no sample comes between
      the first at the target and the stop. */
  lemma ShortRunsHold(cfg: Config, start: real, passes: seq<Pass>, k: nat)
    requires StopsAtTarget(cfg, start, passes, k)
    requires cfg.hold <= 0.0 || cfg.plateau <= 0.0 || cfg.max <= 2.0 * STEP
    ensures HeldThroughout(passes, k)
  {
    var at := TargetStopExactly(cfg, start, passes, k);
    if k > 0 {
      assert Decision(cfg, start, passes, 0) == None;
      assert TicksIn(start, passes, 0);
      assert passes[..1][..0] == [] && passes[..1] == [passes[0]];
      assert After(start, passes[..1]).bestAt == passes[0].clock.best;
      assert cfg.plateau > 0.0;
    }
    if k > 1 {
      assert Decision(cfg, start, passes, 1) == None;
      PassTime(start, passes, 1);
      assert cfg.max > 2.0 * STEP;
    }
    forall i, j | 0 <= i <= j <= k && Reached(passes[i])
      ensures Meets(passes[j].sample)
    {
      if k > 1 && i < k {
        HoldDelays(cfg, start, passes, i);
      }
    }
  }

  /** An undecided pass that meets its target has not waited for the hold time. */
  lemma HoldDelays(cfg: Config, start: real, passes: seq<Pass>, i: nat)
    requires Ticking(start, passes) && i < |passes| && Reached(passes[i])
    requires Decision(cfg, start, passes, i) == None
    ensures cfg.hold > 0.0
  {
    var j := TargetStopExactly(cfg, start, passes, i);
    TimesInOrder(start, passes, j, i);
  }

  lemma {:induction false} TimesInOrder(start: real, passes: seq<Pass>, j: nat, i: nat)
    requires Ticking(start, passes) && j <= i < |passes|
    ensures passes[j].clock.reach <= passes[i].clock.hold
    decreases i
  {
    assert TicksIn(start, passes, i);
    if j < i {
      TimesInOrder(start, passes, j, i - 1);
      assert TicksIn(start, passes, i - 1);
    }
  }

  /** Met, missed, and met again after the hold time. */
  ghost function MetMissedMet(cfg: Config, start: real, met: Sample, missed: Sample, again: Sample): seq<Pass> {
    var late := if cfg.hold > 2.0 * STEP then start + STEP + cfg.hold else start + 3.0 * STEP;
    [At(met, start + STEP), At(missed, start + 2.0 * STEP), At(again, late)]
  }

  /** A pass that takes no time. */
  ghost function At(s: Sample, t: real): Pass { Pass(s, Clock(t, t, t, t, t)) }

  /** A sample of a running container. */
  ghost function Shows(conns: nat, target: nat): Sample { Sample(Some(conns), Some(1), true, target) }

  /** The miss goes unnoticed if the plateau time is more than a step, or if the sample that missed
      its target raised the maximum all the same. */
  lemma MissedTargetIsReported(cfg: Config, start: real, met: Sample, missed: Sample, again: Sample)
    requires cfg.hold > 0.0 && cfg.plateau > 0.0 && cfg.max > 2.0 * STEP
    requires met.running && missed.running && again.running
    requires Meets(met) && !Meets(missed) && Meets(again)
    requires cfg.plateau > STEP || Exceeds(Conns(missed), Conns(met))
    ensures var passes := MetMissedMet(cfg, start, met, missed, again);
            StopsAtTarget(cfg, start, passes, 2) && !HeldThroughout(passes, 2)
  {
    var passes := MetMissedMet(cfg, start, met, missed, again);
    assert TicksIn(start, passes, 0) && TicksIn(start, passes, 1) && TicksIn(start, passes, 2);
    assert passes[..1] == [passes[0]] && passes[..1][..0] == [];
    assert passes[..2][..1] == passes[..1] && passes[..3][..2] == passes[..2];
    assert After(start, passes[..1]) == Record(Some(Conns(met)), start + STEP, Some(start + STEP));
    assert Decision(cfg, start, passes, 0) == None && Decision(cfg, start, passes, 1) == None;
    assert Reached(passes[0]) && !Meets(passes[1].sample);
  }

  /** The report "target reached and held" is true of every run of a configuration exactly when the
      configuration leaves no room for a sample in between. */
  lemma TargetReportExactly(cfg: Config)
    ensures (forall start, passes, k :: StopsAtTarget(cfg, start, passes, k) ==> HeldThroughout(passes, k))
            <==> cfg.hold <= 0.0 || cfg.plateau <= 0.0 || cfg.max <= 2.0 * STEP
  {
    if cfg.hold <= 0.0 || cfg.plateau <= 0.0 || cfg.max <= 2.0 * STEP {
      forall start, passes, k | StopsAtTarget(cfg, start, passes, k)
        ensures HeldThroughout(passes, k)
      {
        ShortRunsHold(cfg, start, passes, k);
      }
    } else {
      MissedTargetIsReported(cfg, 0.0, Shows(100, 100), Shows(200, 300), Shows(200, 100));
    }
  }

  /** Every sample shows the same target: one load generator sets it once. */
  ghost predicate FixedTarget(passes: seq<Pass>, target: nat) {
    forall i :: 0 <= i < |passes| ==> passes[i].sample.target == target
  }

  /** A sample below a target met before raises nothing, so a plateau time of one step is over. */
  lemma FixedTargetHolds(cfg: Config, start: real, passes: seq<Pass>, k: nat, target: nat)
    requires StopsAtTarget(cfg, start, passes, k) && FixedTarget(passes, target) && cfg.plateau <= STEP
    ensures HeldThroughout(passes, k)
  {
    forall i, j | 0 <= i <= j <= k && Reached(passes[i])
      ensures Meets(passes[j].sample)
    {
      if i < j < k && !Meets(passes[j].sample) {
        var last := AgeOfBest(cfg, start, passes, j);
        assert last == j;
        RaiseBeatsAll(start, passes, j);
        assert false;
      }
    }
  }

  /** With a target that never changes a plateau time of one step is already short enough. */
  lemma FixedTargetReportExactly(cfg: Config, target: nat)
    requires target > 0
    ensures (forall start, passes, k :: FixedTarget(passes, target) && StopsAtTarget(cfg, start, passes, k) ==>
               HeldThroughout(passes, k))
            <==> cfg.hold <= 0.0 || cfg.plateau <= STEP || cfg.max <= 2.0 * STEP
  {
    if cfg.hold <= 0.0 || cfg.plateau <= STEP || cfg.max <= 2.0 * STEP {
      forall start, passes, k | FixedTarget(passes, target) && StopsAtTarget(cfg, start, passes, k)
        ensures HeldThroughout(passes, k)
      {
        if cfg.plateau <= STEP {
          FixedTargetHolds(cfg, start, passes, k, target);
        } else {
          ShortRunsHold(cfg, start, passes, k);
        }
      }
    } else {
      var met, missed := Shows(target, target), Shows(0, target);
      MissedTargetIsReported(cfg, 0.0, met, missed, met);
      assert FixedTarget(MetMissedMet(cfg, 0.0, met, missed, met), target);
    }
  }

  // ------------------------------------------------ samples without a cgroup reading

  /** A whole run of the loop: it goes on up to the last pass and stops there. */
  ghost predicate Completed(cfg: Config, start: real, passes: seq<Pass>) {
    && |passes| > 0
    && Ticking(start, passes)
    && Undecided(cfg, start, passes, |passes| - 1)
    && Decision(cfg, start, passes, |passes| - 1) != None
  }

  /** Which samples have a cgroup reading. */
  ghost predicate Fits(passes: seq<Pass>, seen: seq<bool>) {
    |passes| == |seen| && forall i :: 0 <= i < |seen| ==> passes[i].sample.cgMemory.Some? == seen[i]
  }

  /** No run can be this long, or the maximum has been raised since the last unseen sample. */
  ghost predicate SeenInTime(cfg: Config, seen: seq<bool>) {
    || |seen| == 1
    || cfg.plateau <= 0.0
    || cfg.max <= STEP * (|seen| - 1) as real
    || forall i :: 0 <= i < |seen| && !seen[i] ==> STEP * (|seen| - 2 - i) as real >= cfg.plateau
  }

  /** Of the samples up to one that does not stop the loop, the last that raised the maximum is more
      recent than the plateau time. */
  lemma AgeOfBest(cfg: Config, start: real, passes: seq<Pass>, k: nat) returns (j: nat)
    requires Ticking(start, passes) && k < |passes| && Decision(cfg, start, passes, k) == None
    ensures j <= k && Raises(start, passes, j) && STEP * (k - j) as real < cfg.plateau
  {
    j := BestWasSet(start, passes[..k + 1]);
    assert passes[..k + 1][..j] == passes[..j];
    TimeBetween(start, passes, j, k);
    assert TicksIn(start, passes, k);
  }

  lemma {:induction false} TimeBetween(start: real, passes: seq<Pass>, j: nat, i: nat)
    requires Ticking(start, passes) && j <= i < |passes|
    ensures passes[j].clock.best + STEP * (i - j) as real <= passes[i].clock.best
    decreases i
  {
    assert TicksIn(start, passes, i);
    if j < i {
      TimeBetween(start, passes, j, i - 1);
      assert TicksIn(start, passes, i - 1);
      assert (i - j) as real == (i - 1 - j) as real + 1.0;
    }
  }

  /** A sample that raises the maximum shows more connections than any before it. */
  lemma RaiseBeatsAll(start: real, passes: seq<Pass>, j: nat)
    requires j < |passes| && Raises(start, passes, j)
    ensures forall i :: 0 <= i < j ==> Conns(passes[i].sample) < Conns(passes[j].sample)
  {
    if j > 0 {
      var before := passes[..j];
      BestIsNearMaximum(start, before);
      MaxConnsIsBound(Samples(before));
      forall i | 0 <= i < j
        ensures Conns(passes[i].sample) < Conns(passes[j].sample)
      {
        assert Samples(before)[i] == passes[i].sample;
        assert Samples(before)[i] in Samples(before);
      }
    }
  }

  /** Then a later sample shows more connections than one without a reading. */
  lemma UnseenIsNotMaximal(cfg: Config, start: real, passes: seq<Pass>, seen: seq<bool>, i: nat)
    requires Completed(cfg, start, passes) && Fits(passes, seen) && SeenInTime(cfg, seen)
    requires i < |seen| && !seen[i] && |seen| > 1
    ensures Conns(passes[i].sample) < MaxConns(Samples(passes))
  {
    var n, rows := |passes|, Samples(passes);
    RunWasShort(cfg, start, passes);
    assert Decision(cfg, start, passes, n - 2) == None;
    var j := AgeOfBest(cfg, start, passes, n - 2);
    RaiseBeatsAll(start, passes, j);
    MaxConnsIsBound(rows);
    assert rows[j] in rows;
  }

  lemma SeenInTimeAgrees(cfg: Config, start: real, passes: seq<Pass>, seen: seq<bool>)
    requires Completed(cfg, start, passes) && Fits(passes, seen) && SeenInTime(cfg, seen)
    ensures PeaksAgree(start, passes)
  {
    if |seen| == 1 && !seen[0] {
      OneUnseenSample(start, passes);
    } else {
      var rows := Samples(passes);
      MaxConnsIsBound(rows);
      var i :| 0 <= i < |rows| && Conns(rows[i]) == MaxConns(rows);
      if !seen[i] {
        UnseenIsNotMaximal(cfg, start, passes, seen, i);
      }
      assert rows[i] in rows;
      OnlineAndOfflinePeaksAgree(start, passes);
    }
  }

  lemma RunWasShort(cfg: Config, start: real, passes: seq<Pass>)
    requires Completed(cfg, start, passes) && |passes| > 1
    ensures cfg.plateau > 0.0 && cfg.max > STEP * (|passes| - 1) as real
  {
    assert Decision(cfg, start, passes, |passes| - 2) == None;
    var j := AgeOfBest(cfg, start, passes, |passes| - 2);
    if STEP * (|passes| - 1) as real >= cfg.max {
      StopsInTime(cfg, start, passes, |passes| - 1);
    }
  }

  lemma OneUnseenSample(start: real, passes: seq<Pass>)
    requires |passes| == 1 && passes[0].sample.cgMemory == None
    ensures PeaksAgree(start, passes)
  {
    var rows := Samples(passes);
    assert passes[..0] == [];
    assert rows == [passes[0].sample] && rows[..0] == [];
    assert Live(rows) == [];
  }

  ghost function Pow2(k: nat): (p: nat)
    ensures p >= 1
  {
    if k == 0 then 1 else 2 * Pow2(k - 1)
  }

  lemma {:induction false} Pow2Monotone(j: nat, k: nat)
    requires j <= k
    ensures Pow2(j) <= Pow2(k)
  {
    if j < k {
      Pow2Monotone(j, k - 1);
    }
  }

  /** Connections that double with every sample up to a spike at i, after which hardly any are
      left. */
  ghost function Rising(i: nat, k: nat): nat {
    if k < i then Pow2(k) else if k == i then 1000 * Pow2(i) else 1
  }

  /** A run of these samples, one per step, until the container stops at the last one. */
  ghost function Spike(start: real, seen: seq<bool>, i: nat): seq<Pass> {
    seq(|seen|, k requires 0 <= k < |seen| =>
      At(Sample(Some(Rising(i, k)), if seen[k] then Some(1) else None, k < |seen| - 1, 0), TimeOf(start, k)))
  }

  ghost function TimeOf(start: real, k: int): real { start + STEP * (k + 1) as real }

  /** best rises with every sample up to the spike and stays there. */
  lemma {:induction false} SpikeRecord(start: real, seen: seq<bool>, i: nat, k: nat)
    requires i < |seen| && k < |seen|
    ensures var top := if k < i then k else i;
            After(start, Spike(start, seen, i)[..k + 1]) == Record(Some(Rising(i, top)), TimeOf(start, top), None)
  {
    var passes := Spike(start, seen, i);
    assert passes[..k + 1][..k] == passes[..k];
    if k > 0 {
      SpikeRecord(start, seen, i, k - 1);
    }
  }

  lemma SpikeCompletes(cfg: Config, start: real, seen: seq<bool>, i: nat)
    requires i < |seen| && |seen| > 1
    requires cfg.plateau > 0.0 && cfg.max > STEP * (|seen| - 1) as real
    requires STEP * (|seen| - 2 - i) as real < cfg.plateau
    ensures Completed(cfg, start, Spike(start, seen, i)) && Fits(Spike(start, seen, i), seen)
  {
    var passes := Spike(start, seen, i);
    forall k | 0 <= k < |passes|
      ensures TicksIn(start, passes, k)
    {
      assert (k + 1) as real == k as real + 1.0;
    }
    forall k | 0 <= k < |passes| - 1
      ensures Decision(cfg, start, passes, k) == None
    {
      SpikeRecord(start, seen, i, k);
    }
  }

  lemma LiveIsBelowSpike(start: real, seen: seq<bool>, i: nat)
    requires i < |seen| && !seen[i]
    ensures forall r :: r in Live(Samples(Spike(start, seen, i))) ==> Conns(r) <= Pow2(i)
  {
    var rows := Samples(Spike(start, seen, i));
    forall r | r in Live(rows)
      ensures Conns(r) <= Pow2(i)
    {
      var k :| 0 <= k < |rows| && rows[k] == r;
      assert k != i;
      if k < i {
        Pow2Monotone(k, i);
      }
    }
  }

  /** The spike is not reported if its own reading is missing and another sample is live, or if no
      sample is live and it is not the last. */
  lemma SpikeIsMissed(start: real, seen: seq<bool>, i: nat)
    requires i < |seen| && !seen[i]
    requires (exists k :: 0 <= k < |seen| && seen[k]) || i < |seen| - 1
    ensures !PeaksAgree(start, Spike(start, seen, i))
  {
    hide Pow2, After, Live, LastNear, Top, Window;
    var passes := Spike(start, seen, i);
    var rows := Samples(passes);
    SpikeRecord(start, seen, i, |seen| - 1);
    assert passes[..|seen|] == passes;
    LiveIsBelowSpike(start, seen, i);
    if k :| 0 <= k < |seen| && seen[k] {
      assert rows[k] in rows && IsLive(rows[k]);
      var j, most := PeakIsSettled(rows);
      assert rows[j] in rows && rows[j] in Live(rows);
    } else {
      NoneLive(rows);
    }
    assert Conns(Peak(rows)) <= Pow2(i);
  }

  /** The loop's maximum and the reported peak agree in every whole run with these cgroup readings,
      whatever the numbers of connections, exactly when each missing reading is so far from the
      end that the loop would have stopped without a later increase. */
  lemma PeaksAgreeExactly(cfg: Config, start: real, seen: seq<bool>)
    requires |seen| > 0
    ensures (forall passes :: Completed(cfg, start, passes) && Fits(passes, seen) ==> PeaksAgree(start, passes))
            <==> SeenInTime(cfg, seen)
  {
    if SeenInTime(cfg, seen) {
      forall passes | Completed(cfg, start, passes) && Fits(passes, seen)
        ensures PeaksAgree(start, passes)
      {
        SeenInTimeAgrees(cfg, start, passes, seen);
      }
    } else {
      var i :| 0 <= i < |seen| && !seen[i] && STEP * (|seen| - 2 - i) as real < cfg.plateau;
      if !exists k :: 0 <= k < |seen| && seen[k] {
        i := |seen| - 2;
      }
      SpikeCompletes(cfg, start, seen, i);
      SpikeIsMissed(start, seen, i);
    }
  }
}
