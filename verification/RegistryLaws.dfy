/** What whole histories of registry calls do: connections do not disturb one another, the order
    of a connection's add and remove does not matter, and batches walk the list fairly. */
module RegistryLaws {
  import opened Cyclic
  import opened Registry

  datatype Op<C> = AddOp(conn: C) | RemoveOp(conn: C)

  function Perform<C(==)>(r: Reg<C>, op: Op<C>): (Reg<C>, bool) {
    match op
    case AddOp(c) => Add(r, c)
    case RemoveOp(c) => Remove(r, c)
  }

  /** The registry after a history of calls on an empty one. */
  ghost function After<C>(h: seq<Op<C>>): Reg<C> {
    if |h| == 0 then Reg([], {}) else Perform(After(h[..|h| - 1]), h[|h| - 1]).0
  }

  /** What the i-th call of the history returned. */
  ghost function Returned<C>(h: seq<Op<C>>, i: nat): bool
    requires i < |h|
  {
    Perform(After(h[..i]), h[i]).1
  }

  // ------------------------------------------------ one connection at a time

  datatype Status = Absent | Stored | Tombstone

  ghost function StatusIn<C>(r: Reg<C>, c: C): Status {
    if c in r.conns then Stored else if c in r.closed then Tombstone else Absent
  }

  /** The life of a single connection. */
  ghost function Own<C>(st: Status, op: Op<C>): (Status, bool) {
    match op
    case AddOp(_) => (if st == Tombstone then Absent else Stored, st == Absent)
    case RemoveOp(_) => (if st == Stored then Absent else Tombstone, st == Stored)
  }

  /** The status of c as its own calls alone would leave it. */
  ghost function OwnStatus<C>(h: seq<Op<C>>, c: C): Status {
    if |h| == 0 then Absent
    else
      var before := OwnStatus(h[..|h| - 1], c);
      if h[|h| - 1].conn == c then Own(before, h[|h| - 1]).0 else before
  }

  lemma PerformLocally<C(!new)>(r: Reg<C>, op: Op<C>, c: C)
    requires WellFormed(r)
    ensures var (r', ok) := Perform(r, op);
            && WellFormed(r')
            && (op.conn == c ==> (StatusIn(r', c), ok) == Own(StatusIn(r, c), op))
            && (op.conn != c ==> StatusIn(r', c) == StatusIn(r, c))
  {
    AddSets(r, op.conn);
    RemoveSets(r, op.conn);
    var r' := Perform(r, op).0;
    assert c in r.conns <==> c in Elems(r.conns);
    assert c in r'.conns <==> c in Elems(r'.conns);
  }

  /** In every history the status of a connection, and what its calls return, depend on the
      calls for that connection only. */
  lemma {:induction false} ConnectionsAreIndependent<C(!new)>(h: seq<Op<C>>, c: C)
    ensures WellFormed(After(h))
    ensures StatusIn(After(h), c) == OwnStatus(h, c)
    ensures forall i :: 0 <= i < |h| && h[i].conn == c ==>
              Returned(h, i) == Own(OwnStatus(h[..i], c), h[i]).1
  {
    if |h| > 0 {
      var front := h[..|h| - 1];
      ConnectionsAreIndependent(front, c);
      PerformLocally(After(front), h[|h| - 1], c);
      forall i | 0 <= i < |h| && h[i].conn == c
        ensures Returned(h, i) == Own(OwnStatus(h[..i], c), h[i]).1
      {
        if i < |front| {
          assert front[..i] == h[..i];
          assert Returned(front, i) == Own(OwnStatus(front[..i], c), front[i]).1;
        }
      }
    }
  }

  // ------------------------------------------------ at most one add and one remove each

  /** No call is made twice: each connection is added at most once and closed at most once. */
  ghost predicate OnceEach<C>(h: seq<Op<C>>) { Distinct(h) }

  lemma {:induction false} OnceEachStatus<C>(h: seq<Op<C>>, c: C)
    requires OnceEach(h)
    ensures OwnStatus(h, c) ==
            if AddOp(c) in h && RemoveOp(c) !in h then Stored
            else if RemoveOp(c) in h && AddOp(c) !in h then Tombstone
            else Absent
  {
    if |h| > 0 {
      var front, last := h[..|h| - 1], h[|h| - 1];
      OnceEachStatus(front, c);
      assert h == front + [last];
      assert last !in front;
      assert forall op :: op in h <==> op in front || op == last;
    }
  }

  /** Added minus removed is stored; removed minus added is remembered as closed. */
  lemma StoredIsAddedMinusRemoved<C(!new)>(h: seq<Op<C>>, c: C)
    requires OnceEach(h)
    ensures c in After(h).conns <==> AddOp(c) in h && RemoveOp(c) !in h
    ensures c in After(h).closed <==> RemoveOp(c) in h && AddOp(c) !in h
  {
    ConnectionsAreIndependent(h, c);
    OnceEachStatus(h, c);
  }

  /** The two calls for one connection both return true or both return false, whichever comes
      first: so `active` is raised by one and lowered by one, or left alone. */
  lemma CallsAgree<C(!new)>(h: seq<Op<C>>, i: nat, j: nat)
    requires OnceEach(h) && i < |h| && j < |h|
    requires h[i].AddOp? && h[j] == RemoveOp(h[i].conn)
    ensures Returned(h, i) == Returned(h, j) == (i < j)
  {
    var c := h[i].conn;
    ConnectionsAreIndependent(h, c);
    OncePrefix(h, i);
    OncePrefix(h, j);
    OnceEachStatus(h[..i], c);
    OnceEachStatus(h[..j], c);
    if i < j {
      assert h[..j][i] == AddOp(c);
    } else {
      assert h[..i][j] == RemoveOp(c);
    }
  }

  /** A call made at position i was not made before. */
  lemma OncePrefix<C>(h: seq<Op<C>>, i: nat)
    requires OnceEach(h) && i < |h|
    ensures OnceEach(h[..i])
    ensures h[i] !in h[..i]
    ensures forall op :: op in h[..i] ==> op in h
  {
  }

  /** Two histories of the same calls, each made once, in any two orders, leave the same
      connections stored and the same tombstones. */
  lemma OrderDoesNotMatter<C(!new)>(h: seq<Op<C>>, h': seq<Op<C>>)
    requires OnceEach(h) && OnceEach(h') && (forall op :: op in h <==> op in h')
    ensures Elems(After(h).conns) == Elems(After(h').conns)
    ensures |After(h).conns| == |After(h').conns|
    ensures After(h).closed == After(h').closed
  {
    forall c
      ensures c in After(h).conns <==> c in After(h').conns
      ensures c in After(h).closed <==> c in After(h').closed
    {
      StoredIsAddedMinusRemoved(h, c);
      StoredIsAddedMinusRemoved(h', c);
    }
    HistoryWellFormed(h);
    HistoryWellFormed(h');
    DistinctSize(After(h).conns);
    DistinctSize(After(h').conns);
    assert Elems(After(h).conns) == Elems(After(h').conns);
  }

  lemma {:induction false} HistoryWellFormed<C(!new)>(h: seq<Op<C>>)
    ensures WellFormed(After(h))
  {
    if |h| > 0 {
      HistoryWellFormed(h[..|h| - 1]);
      PerformLocally(After(h[..|h| - 1]), h[|h| - 1], h[|h| - 1].conn);
    }
  }

  lemma {:induction false} DistinctSize<C>(s: seq<C>)
    requires Distinct(s)
    ensures |Elems(s)| == |s|
  {
    if |s| > 0 {
      var front, last := s[..|s| - 1], s[|s| - 1];
      DistinctSize(front);
      assert s == front + [last];
      assert Elems(s) == Elems(front) + {last};
    }
  }

  /** In every history, repeated calls included: adds that returned true minus removes that
      returned true. */
  ghost function Net<C>(h: seq<Op<C>>): int {
    if |h| == 0 then 0
    else
      var ok := Returned(h, |h| - 1);
      Net(h[..|h| - 1]) + (if !ok then 0 else if h[|h| - 1].AddOp? then 1 else -1)
  }

  lemma {:induction false} NetIsOpen<C(!new)>(h: seq<Op<C>>)
    ensures Net(h) == |After(h).conns|
  {
    if |h| > 0 {
      var front, last := h[..|h| - 1], h[|h| - 1];
      NetIsOpen(front);
      HistoryWellFormed(front);
      AddSets(After(front), last.conn);
      RemoveSets(After(front), last.conn);
    }
  }

  // ------------------------------------------------ repeated calls

  /** The calls for one connection, in order. */
  ghost function CallsFor<C>(h: seq<Op<C>>, c: C): (own: seq<Op<C>>)
    ensures forall op :: op in own ==> op == AddOp(c) || op == RemoveOp(c)
  {
    if |h| == 0 then []
    else
      var before := CallsFor(h[..|h| - 1], c);
      if h[|h| - 1].conn == c then before + [h[|h| - 1]] else before
  }

  /** The i-th call repeats the one before it. The first call counts as repeated. */
  ghost predicate Doubled<C>(own: seq<Op<C>>, i: nat)
    requires i < |own|
  {
    i == 0 || own[i - 1] == own[i]
  }

  /** The last repeated call; after it adds and removes alternate. */
  ghost function LastDoubled<C>(own: seq<Op<C>>): (i: nat)
    requires |own| > 0
    ensures i < |own| && Doubled(own, i)
    ensures forall j :: i < j < |own| ==> !Doubled(own, j)
  {
    var front := own[..|own| - 1];
    assert forall j :: 0 <= j < |front| ==> Doubled(front, j) == Doubled(own, j);
    if Doubled(own, |front|) then |front| else LastDoubled(front)
  }

  /** The last call and the last repeated call. */
  ghost predicate EndsWith<C>(own: seq<Op<C>>, last: Op<C>, doubled: Op<C>) {
    |own| > 0 && own[|own| - 1] == last && own[LastDoubled(own)] == doubled
  }

  /** Two adds in a row leave a connection stored and two removes leave a tombstone, whatever was
      before; from there, and from the first call, alternating calls go back and forth. */
  lemma {:induction false} RepeatedCallsStatus<C>(h: seq<Op<C>>, c: C)
    ensures var own := CallsFor(h, c);
            OwnStatus(h, c) == if EndsWith(own, AddOp(c), AddOp(c)) then Stored
                               else if EndsWith(own, RemoveOp(c), RemoveOp(c)) then Tombstone
                               else Absent
  {
    if |h| > 0 {
      var front, last := h[..|h| - 1], h[|h| - 1];
      RepeatedCallsStatus(front, c);
      if last.conn == c {
        NextCall(CallsFor(front, c), last);
        var before := CallsFor(front, c);
        if |before| > 0 {
          assert before[|before| - 1] in before && before[LastDoubled(before)] in before;
        }
      }
    }
  }

  lemma NextCall<C>(own: seq<Op<C>>, op: Op<C>)
    ensures var longer := own + [op];
            longer[LastDoubled(longer)] == if |own| == 0 || own[|own| - 1] == op then op else own[LastDoubled(own)]
  {
    var longer := own + [op];
    assert longer[..|longer| - 1] == own;
  }

  /** What any history leaves, read off its calls: a tombstone exactly when the last call and the
      last repeated call for the connection are closes, the connection exactly when both are adds. */
  lemma TombstoneExactly<C(!new)>(h: seq<Op<C>>, c: C)
    ensures c in After(h).closed <==> EndsWith(CallsFor(h, c), RemoveOp(c), RemoveOp(c))
    ensures c in After(h).conns <==> EndsWith(CallsFor(h, c), AddOp(c), AddOp(c))
  {
    ConnectionsAreIndependent(h, c);
    RepeatedCallsStatus(h, c);
  }

  ghost function Times<C>(h: seq<Op<C>>, op: Op<C>): nat { multiset(h)[op] }

  ghost predicate ClosedAfterAdd<C>(h: seq<Op<C>>, c: C) {
    exists i, j :: 0 <= i < j < |h| && h[i] == AddOp(c) && h[j] == RemoveOp(c)
  }

  lemma TimesExtends<C>(h: seq<Op<C>>, op: Op<C>)
    requires |h| > 0
    ensures var front, last := h[..|h| - 1], h[|h| - 1];
            && Times(h, op) == Times(front, op) + (if last == op then 1 else 0)
            && (op.AddOp? ==>
                  (ClosedAfterAdd(h, op.conn) <==>
                     ClosedAfterAdd(front, op.conn) || (last == RemoveOp(op.conn) && Times(front, op) > 0)))
  {
    var front, last := h[..|h| - 1], h[|h| - 1];
    assert h == front + [last];
    if op in front {
      var i :| 0 <= i < |front| && front[i] == op;
      assert h[i] == op;
    }
    if op.AddOp? && ClosedAfterAdd(front, op.conn) {
      var i, j :| 0 <= i < j < |front| && front[i] == op && front[j] == RemoveOp(op.conn);
      assert h[i] == op && h[j] == front[j];
    }
  }

  /** A connection that is added at most once, closed any number of times. */
  lemma {:induction false} AddedOnceStatus<C>(h: seq<Op<C>>, c: C)
    requires Times(h, AddOp(c)) <= 1
    ensures var closes := Times(h, RemoveOp(c));
            OwnStatus(h, c) == if Times(h, AddOp(c)) == 0 then (if closes == 0 then Absent else Tombstone)
                               else if ClosedAfterAdd(h, c) then (if closes >= 2 then Tombstone else Absent)
                               else if closes == 0 then Stored else Absent
  {
    if |h| > 0 {
      TimesExtends(h, AddOp(c));
      TimesExtends(h, RemoveOp(c));
      AddedOnceStatus(h[..|h| - 1], c);
      ClosedIsBoth(h[..|h| - 1], c);
    }
  }

  lemma ClosedIsBoth<C>(h: seq<Op<C>>, c: C)
    ensures ClosedAfterAdd(h, c) ==> Times(h, AddOp(c)) >= 1 && Times(h, RemoveOp(c)) >= 1
  {
  }

  /** The documented meaning of a tombstone, not stored yet, fails for a connection that is added
      once exactly when it is closed twice, at least once of it after the add. */
  lemma TombstoneAfterAddExactly<C(!new)>(h: seq<Op<C>>, c: C)
    requires Times(h, AddOp(c)) == 1
    ensures c in After(h).closed <==> ClosedAfterAdd(h, c) && Times(h, RemoveOp(c)) >= 2
  {
    ConnectionsAreIndependent(h, c);
    AddedOnceStatus(h, c);
  }

  /** So the comment can be trusted exactly when the connection library closes at most once. */
  lemma CloseOnceExactly<C(!new)>(c: C, m: nat)
    ensures (forall h :: Times(h, AddOp(c)) == 1 && Times(h, RemoveOp(c)) <= m ==> c !in After(h).closed)
            <==> m <= 1
  {
    if m <= 1 {
      forall h | Times(h, AddOp(c)) == 1 && Times(h, RemoveOp(c)) <= m
        ensures c !in After(h).closed
      {
        TombstoneAfterAddExactly(h, c);
      }
    } else {
      var h := [AddOp(c)] + [RemoveOp(c), RemoveOp(c)];
      DoubleCloseLeavesTombstone([AddOp(c)], c);
      assert Times(h, AddOp(c)) == 1 && Times(h, RemoveOp(c)) == 2;
    }
  }

  /** Two closes in a row leave a tombstone after every history, and the next add of that
      connection, wanted or not, is refused. */
  lemma DoubleCloseLeavesTombstone<C(!new)>(h: seq<Op<C>>, c: C)
    ensures var twice := h + [RemoveOp(c), RemoveOp(c)];
            c in After(twice).closed && !Add(After(twice), c).1
  {
    var once := h + [RemoveOp(c)];
    var twice := h + [RemoveOp(c), RemoveOp(c)];
    assert once[..|h|] == h && twice[..|once|] == once;
    ConnectionsAreIndependent(once, c);
    ConnectionsAreIndependent(twice, c);
  }

  // ------------------------------------------------ batches

  /** Whatever happened before, one batch holds stored connections only, each at most once. */
  lemma BatchHasNoRepeats<C(!new)>(r: Reg<C>, cursor: nat, n: nat)
    requires WellFormed(r)
    ensures var (batch, next) := Batch(r.conns, cursor, n);
            && Distinct(batch)
            && |batch| == (if n > |r.conns| then |r.conns| else n)
            && (forall c :: c in batch ==> c in r.conns)
            && (if |r.conns| > 0 then next < |r.conns| else next == 0)
  {
    if |r.conns| > 0 {
      var k := |Batch(r.conns, cursor, n).0|;
      WalkDistinct(r.conns, cursor, k);
      WalkStaysInside(r.conns, cursor, k);
    }
  }

  /** Batches taken one after the other from an unchanged registry. */
  ghost function Batches<C>(conns: seq<C>, cursor: nat, sizes: seq<nat>): seq<C>
    decreases |sizes|
  {
    if |sizes| == 0 then []
    else
      var (batch, next) := Batch(conns, cursor, sizes[0]);
      batch + Batches(conns, next, sizes[1..])
  }

  /** Together they are a walk round the list, so any two connections have been visited equally
      often or one of them once more. */
  lemma {:induction false} BatchesWalk<C(!new)>(conns: seq<C>, cursor: nat, sizes: seq<nat>)
    requires |conns| > 0
    ensures var all := Batches(conns, cursor, sizes); all == Walk(conns, cursor, |all|)
    decreases |sizes|
  {
    if |sizes| > 0 {
      var (batch, next) := Batch(conns, cursor, sizes[0]);
      BatchesWalk(conns, next, sizes[1..]);
      WalkSplit(conns, cursor, |batch|, |Batches(conns, next, sizes[1..])|);
    }
  }

  lemma BatchesAreFair<C(!new)>(conns: seq<C>, cursor: nat, sizes: seq<nat>, x: nat, y: nat)
    requires Distinct(conns) && x < |conns| && y < |conns|
    ensures var all := multiset(Batches(conns, cursor, sizes));
            all[conns[x]] <= all[conns[y]] + 1
  {
    var k := |Batches(conns, cursor, sizes)|;
    BatchesWalk(conns, cursor, sizes);
    FairWalk(conns, cursor, k, x);
    FairWalk(conns, cursor, k, y);
  }

  // ------------------------------------------------ batches while connections come and go

  datatype Event<C> = Offer(conn: C) | Drop(conn: C) | Send(n: nat)

  /** The registry, the cursor, who has been visited, and how many visits were made. */
  datatype Ramp<C> = Ramp(reg: Reg<C>, cursor: nat, visited: set<C>, sent: nat)

  ghost function Happen<C>(p: Ramp<C>, e: Event<C>): Ramp<C> {
    match e
    case Offer(c) => p.(reg := Add(p.reg, c).0)
    case Drop(c) => p.(reg := Remove(p.reg, c).0)
    case Send(n) =>
      var (batch, next) := Batch(p.reg.conns, p.cursor, n);
      Ramp(p.reg, next, p.visited + Elems(batch), p.sent + |batch|)
  }

  ghost function HappenAll<C>(p: Ramp<C>, events: seq<Event<C>>): Ramp<C> {
    if |events| == 0 then p
    else Happen(HappenAll(p, events[..|events| - 1]), events[|events| - 1])
  }

  /** From a registry and a cursor, before any visit. */
  ghost function Ramped<C>(r: Reg<C>, c0: nat, events: seq<Event<C>>): Ramp<C> {
    HappenAll(Ramp(r, c0, {}, 0), events)
  }

  ghost function Drops<C>(events: seq<Event<C>>): nat {
    if |events| == 0 then 0
    else Drops(events[..|events| - 1]) + (if events[|events| - 1].Drop? then 1 else 0)
  }

  /** Once as many visits were made as there are connections, every connection of the start that
      was never dropped has had one. */
  ghost predicate Covered<C>(r: Reg<C>, c0: nat, events: seq<Event<C>>) {
    var p := Ramped(r, c0, events);
    p.sent >= |p.reg.conns| ==>
      forall c :: c in r.conns && Drop(c) !in events ==> c in p.visited
  }

  /** Connections of the list at the start that the walk has passed. */
  ghost predicate Passed<C>(start: seq<C>, p: Ramp<C>, lo: nat, hi: nat) {
    forall i :: lo <= i < hi && i < |start| ==> start[i] in p.visited
  }

  /** Before the end of the list is passed, from c0 on; after it, from c0 on and up to the
      cursor; once the cursor is back at c0, everything. */
  ghost predicate RampInv<C>(start: seq<C>, c0: nat, p: Ramp<C>) {
    var n := |p.reg.conns|;
    && start <= p.reg.conns
    && (|| Passed(start, p, 0, |start|)
        || (p.cursor == c0 + p.sent < n && Passed(start, p, c0, p.cursor))
        || (p.cursor < c0 && p.sent <= n - c0 + p.cursor
            && Passed(start, p, c0, |start|) && Passed(start, p, 0, p.cursor)))
  }

  lemma SendVisits<C>(conns: seq<C>, cursor: nat, n: nat, i: nat)
    requires cursor < |conns| && i < |conns|
    requires var k := |Batch(conns, cursor, n).0|;
             cursor <= i < cursor + k || i + |conns| < cursor + k
    ensures conns[i] in Batch(conns, cursor, n).0
  {
    var (batch, _) := Batch(conns, cursor, n);
    var j := if cursor <= i < cursor + |batch| then i - cursor else i + |conns| - cursor;
    WrapBelowTwo(cursor + j, |conns|);
    assert batch[j] == conns[Wrap(cursor + j, |conns|)];
  }

  lemma SendKeepsRamp<C>(start: seq<C>, c0: nat, p: Ramp<C>, n: nat)
    requires c0 < |start| && p.cursor < |p.reg.conns| && RampInv(start, c0, p)
    ensures var p' := Happen(p, Send(n)); p'.cursor < |p.reg.conns| && RampInv(start, c0, p')
  {
    var conns := p.reg.conns;
    var p' := Happen(p, Send(n));
    var k := |Batch(conns, p.cursor, n).0|;
    forall i | 0 <= i < |start| && (p.cursor <= i < p.cursor + k || i + |conns| < p.cursor + k)
      ensures start[i] in p'.visited
    {
      SendVisits(conns, p.cursor, n, i);
      assert start[i] == conns[i];
    }
    WrapBelowTwo(p.cursor + k, |conns|);
  }

  lemma {:induction false} RampKeeps<C(!new)>(r: Reg<C>, c0: nat, events: seq<Event<C>>)
    requires c0 < |r.conns| && Drops(events) == 0
    ensures var p := Ramped(r, c0, events); p.cursor < |p.reg.conns| && RampInv(r.conns, c0, p)
  {
    if |events| > 0 {
      var front, last := events[..|events| - 1], events[|events| - 1];
      RampKeeps(r, c0, front);
      if last.Send? {
        SendKeepsRamp(r.conns, c0, Ramped(r, c0, front), last.n);
      }
    }
  }

  /** While connections are added and none removed, nobody is left out. */
  lemma RampCovers<C(!new)>(r: Reg<C>, c0: nat, events: seq<Event<C>>)
    requires c0 < |r.conns| && Drops(events) == 0
    ensures Covered(r, c0, events)
  {
    RampKeeps(r, c0, events);
    var p := Ramped(r, c0, events);
    if p.sent >= |p.reg.conns| {
      forall c | c in r.conns
        ensures c in p.visited
      {
        var i :| 0 <= i < |r.conns| && r.conns[i] == c;
      }
    }
  }

  /** A connection that was alone at the start and is never dropped stays in the first slot. */
  lemma {:induction false} AloneStaysFirst<C(!new)>(r: Reg<C>, events: seq<Event<C>>)
    requires WellFormed(r) && |r.conns| == 1 && Drop(r.conns[0]) !in events
    ensures var p := Ramped(r, 0, events);
            && WellFormed(p.reg) && |p.reg.conns| > 0 && p.reg.conns[0] == r.conns[0]
            && (r.conns[0] in p.visited || (p.cursor == 0 && p.sent == 0))
  {
    if |events| > 0 {
      var front, last := events[..|events| - 1], events[|events| - 1];
      assert events == front + [last];
      assert last in events;
      AloneStaysFirst(r, front);
      var p := Ramped(r, 0, front);
      match last
      case Offer(c) => AddSets(p.reg, c);
      case Drop(c) =>
        RemoveSets(p.reg, c);
        assert c in p.reg.conns ==> IndexOf(p.reg.conns, c) != 0;
      case Send(n) =>
        WrapBelowTwo(0, |p.reg.conns|);
        if n > 0 && p.cursor == 0 {
          SendVisits(p.reg.conns, 0, n, 0);
        }
    }
  }

  lemma TwoEvents<C>(p: Ramp<C>, first: Event<C>, second: Event<C>)
    ensures HappenAll(p, [first, second]) == Happen(Happen(p, first), second)
    ensures Drops([first, second]) == (if first.Drop? then 1 else 0) + (if second.Drop? then 1 else 0)
  {
    var none: seq<Event<C>> := [];
    var one, two := [first], [first, second];
    assert two[..|two| - 1] == one && one[..|one| - 1] == none;
    assert HappenAll(p, none) == p && Drops(none) == 0;
    assert HappenAll(p, one) == Happen(p, first);
  }

  /** From any cursor in a list of two or more, batches that visit all connections but one, and the
      removal of another, make as many visits as there are connections left and miss that one. */
  lemma DropLeavesOneOut<C(!new)>(r: Reg<C>, c0: nat)
    requires WellFormed(r) && |r.conns| >= 2 && c0 < |r.conns|
    ensures var events := [Send(|r.conns| - 1), Drop(r.conns[c0])];
            !Covered(r, c0, events) && Drops(events) == 1
  {
    var n, first := |r.conns|, r.conns[c0];
    var send: Event<C>, drop: Event<C> := Send(n - 1), Drop(first);
    var events := [send, drop];
    var p1 := Happen(Ramp(r, c0, {}, 0), send);
    TwoEvents(Ramp(r, c0, {}, 0), send, drop);
    RemoveSets(r, first);
    // The walk over a whole round has no repeats, so its last stop is not among the others.
    var round := Walk(r.conns, c0, n);
    var missed := round[n - 1];
    WalkSplit(r.conns, c0, n - 1, 1);
    WalkDistinct(r.conns, c0, n);
    WalkStaysInside(r.conns, c0, n);
    WrapBelowTwo(c0, n);
    assert round[0] == first && round[n - 1] in round;
    assert missed !in Walk(r.conns, c0, n - 1) by {
      assert Walk(r.conns, c0, n - 1) == round[..n - 1];
    }
    assert Drop(missed) !in events;
  }

  /** How many removals coverage survives, from any cursor: none, unless there was only one
      connection to begin with. */
  lemma CoverageExactly<C(!new)>(r: Reg<C>, c0: nat, m: nat)
    requires WellFormed(r) && c0 < |r.conns|
    ensures (forall events :: Drops(events) <= m ==> Covered(r, c0, events)) <==> m == 0 || |r.conns| == 1
  {
    if m == 0 || |r.conns| == 1 {
      forall events | Drops(events) <= m
        ensures Covered(r, c0, events)
      {
        if m == 0 {
          RampCovers(r, c0, events);
        } else if Drop(r.conns[0]) !in events {
          AloneStaysFirst(r, events);
        }
      }
    } else {
      DropLeavesOneOut(r, c0);
    }
  }
}
