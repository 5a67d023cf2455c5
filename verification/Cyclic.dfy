/** Walking a list of n places round and round. */
module Cyclic {
  import opened Arithmetic

  /** k modulo n, by repeated subtraction, so that proofs need no non-linear arithmetic. */
  function Wrap(k: nat, n: nat): (r: nat)
    requires n > 0
    ensures r < n
  {
    if k < n then k else Wrap(k - n, n)
  }

  lemma {:induction false} WrapIsMod(k: nat, n: nat)
    requires n > 0
    ensures Wrap(k, n) == k % n
  {
    if k >= n {
      WrapIsMod(k - n, n);
      assert k % n == (k - n) % n by {
        var q, r := (k - n) / n, (k - n) % n;
        assert k == (q + 1) * n + r;
        DivUnique(k, n, q + 1, r);
      }
    }
  }

  lemma DivUnique(k: nat, n: nat, q: nat, r: nat)
    requires n > 0 && k == q * n + r && r < n
    ensures k / n == q && k % n == r
  {
    assert k == (k / n) * n + k % n;
    QuotientUnique(n, q, r, k / n, k % n);
  }

  lemma QuotientUnique(n: nat, q: nat, r: nat, q': nat, r': nat)
    requires r < n && r' < n && q * n + r == q' * n + r'
    ensures q == q' && r == r'
  {
    if q < q' {
      MulMonotone(q + 1, q', n);
    } else if q' < q {
      MulMonotone(q' + 1, q, n);
    }
  }

  /** Going on from a wrapped place is the same as going on from the place itself. */
  lemma {:induction false} WrapAdd(a: nat, b: nat, n: nat)
    requires n > 0
    ensures Wrap(Wrap(a, n) + b, n) == Wrap(a + b, n)
  {
    if a >= n {
      WrapAdd(a - n, b, n);
    }
  }

  lemma WrapBelowTwo(k: nat, n: nat)
    requires n > 0 && k < 2 * n
    ensures Wrap(k, n) == if k < n then k else k - n
  {
    if k >= n {
      assert Wrap(k, n) == Wrap(k - n, n);
    }
  }

  /** Two places less than a round apart are different. */
  lemma {:induction false} WrapInjective(a: nat, b: nat, n: nat)
    requires n > 0 && a < b < a + n
    ensures Wrap(a, n) != Wrap(b, n)
  {
    if a >= n {
      WrapInjective(a - n, b - n, n);
    }
  }

  /** The first k stops of the walk that starts at cursor. */
  function Walk<C>(s: seq<C>, cursor: nat, k: nat): (w: seq<C>)
    requires |s| > 0
    ensures |w| == k
  {
    seq(k, i requires 0 <= i < k => s[Wrap(cursor + i, |s|)])
  }

  /** Rounds completed after k stops. */
  ghost function Laps(k: nat, n: nat): nat
    requires n > 0
  {
    if k < n then 0 else 1 + Laps(k - n, n)
  }

  lemma {:induction false} LapsAndRest(k: nat, n: nat)
    requires n > 0
    ensures k == Laps(k, n) * n + Wrap(k, n)
  {
    if k >= n {
      LapsAndRest(k - n, n);
    }
  }

  /** A walk can be cut anywhere: the rest starts at the wrapped place. */
  lemma WalkSplit<C>(s: seq<C>, cursor: nat, k: nat, m: nat)
    requires |s| > 0
    ensures Walk(s, cursor, k + m) == Walk(s, cursor, k) + Walk(s, Wrap(cursor + k, |s|), m)
  {
    var rest := Walk(s, Wrap(cursor + k, |s|), m);
    var whole := Walk(s, cursor, k + m);
    forall i | 0 <= i < m
      ensures whole[k + i] == rest[i]
    {
      WrapAdd(cursor + k, i, |s|);
    }
    assert whole[..k] == Walk(s, cursor, k);
    assert whole[k..] == rest;
  }

  lemma WalkStaysInside<C>(s: seq<C>, cursor: nat, k: nat)
    requires |s| > 0
    ensures forall c :: c in Walk(s, cursor, k) ==> c in s
  {
    var w := Walk(s, cursor, k);
    forall c | c in w
      ensures c in s
    {
      var i :| 0 <= i < |w| && w[i] == c;
      assert w[i] == s[Wrap(cursor + i, |s|)];
    }
  }

  ghost predicate Distinct<C>(s: seq<C>) {
    forall i, j :: 0 <= i < j < |s| ==> s[i] != s[j]
  }

  /** Within one round nothing is visited twice. */
  lemma WalkDistinct<C>(s: seq<C>, cursor: nat, k: nat)
    requires |s| > 0 && Distinct(s) && k <= |s|
    ensures Distinct(Walk(s, cursor, k))
  {
    var w := Walk(s, cursor, k);
    forall i, j | 0 <= i < j < |w|
      ensures w[i] != w[j]
    {
      WrapInjective(cursor + i, cursor + j, |s|);
    }
  }

  /** One round visits everything. */
  lemma RoundVisits<C>(s: seq<C>, cursor: nat, x: nat) returns (i: nat)
    requires x < |s|
    ensures i < |s| && Wrap(cursor + i, |s|) == x && Walk(s, cursor, |s|)[i] == s[x]
  {
    var c := Wrap(cursor, |s|);
    i := if x >= c then x - c else x + |s| - c;
    WrapAdd(cursor, i, |s|);
  }

  lemma {:induction false} DistinctMultiplicity<C>(s: seq<C>, x: C)
    requires Distinct(s)
    ensures multiset(s)[x] == if x in s then 1 else 0
  {
    if |s| > 0 {
      var front := s[..|s| - 1];
      assert s == front + [s[|s| - 1]];
      DistinctMultiplicity(front, x);
      assert x in s <==> x in front || x == s[|s| - 1];
    }
  }

  /** A fair walk: after k stops every place has been visited once per completed round, or once
      more. */
  lemma {:induction false} FairWalk<C>(s: seq<C>, cursor: nat, k: nat, x: nat)
    requires Distinct(s) && x < |s|
    ensures Laps(k, |s|) <= multiset(Walk(s, cursor, k))[s[x]] <= Laps(k, |s|) + 1
    decreases k
  {
    hide Wrap, Walk, Distinct;
    var n := |s|;
    if k < n {
      WalkDistinct(s, cursor, k);
      DistinctMultiplicity(Walk(s, cursor, k), s[x]);
    } else {
      WalkSplit(s, cursor, n, k - n);
      WalkDistinct(s, cursor, n);
      DistinctMultiplicity(Walk(s, cursor, n), s[x]);
      var i := RoundVisits(s, cursor, x);
      FairWalk(s, Wrap(cursor + n, n), k - n, x);
    }
  }
}
