/** The load generator's registry of open connections: an indexed set with swap-remove,
    an inverse map from connection to slot, and tombstones for connections that were
    reported closed before they were added. */
module Registry {
  import opened Cyclic

  /** The registry as a value: the connections in slot order and the tombstones. */
  datatype Reg<C> = Reg(conns: seq<C>, closed: set<C>)

  /** No connection is stored twice and none is both stored and remembered as closed. */
  ghost predicate WellFormed<C(!new)>(r: Reg<C>) {
    Distinct(r.conns) && forall c :: c in r.conns ==> c !in r.closed
  }

  function IndexOf<C(==)>(s: seq<C>, c: C): (i: nat)
    requires c in s
    ensures i < |s| && s[i] == c
  {
    if s[|s| - 1] == c then |s| - 1 else IndexOf(s[..|s| - 1], c)
  }

  function Add<C(==)>(r: Reg<C>, c: C): (Reg<C>, bool) {
    if c in r.closed then (r.(closed := r.closed - {c}), false)
    else if c in r.conns then (r, false)
    else (r.(conns := r.conns + [c]), true)
  }

  /** The last connection moves into the hole. */
  function SwapRemove<C>(s: seq<C>, i: nat): seq<C>
    requires i < |s|
  {
    s[i := s[|s| - 1]][..|s| - 1]
  }

  function Remove<C(==)>(r: Reg<C>, c: C): (Reg<C>, bool) {
    if c in r.conns then (r.(conns := SwapRemove(r.conns, IndexOf(r.conns, c))), true)
    else (r.(closed := r.closed + {c}), false)
  }

  /** Up to n connections from cursor on, wrapping around the end of the list. */
  function Batch<C>(conns: seq<C>, cursor: nat, n: nat): (seq<C>, nat) {
    if |conns| == 0 then ([], 0)
    else
      var k := if n > |conns| then |conns| else n;
      (Walk(conns, cursor, k), Wrap(cursor + k, |conns|))
  }

  /** The elements of a sequence as a set. */
  ghost function Elems<C>(s: seq<C>): set<C> { set c | c in s }

  lemma SwapRemoveElems<C>(s: seq<C>, i: nat)
    requires i < |s| && Distinct(s)
    ensures Distinct(SwapRemove(s, i))
    ensures Elems(SwapRemove(s, i)) == Elems(s) - {s[i]}
  {
    var t := SwapRemove(s, i);
    forall c | c in Elems(s) - {s[i]}
      ensures c in t
    {
      var k :| 0 <= k < |s| && s[k] == c;
      if k == |s| - 1 {
        assert t[i] == c;
      } else {
        assert t[k] == c;
      }
    }
    forall c | c in t
      ensures c in Elems(s) - {s[i]}
    {
      var k :| 0 <= k < |t| && t[k] == c;
      assert t[k] == if k == i then s[|s| - 1] else s[k];
    }
  }

  /** What add does to the two sets: c is stored exactly when it was neither a tombstone nor
      stored already, and a tombstone is consumed. */
  lemma AddSets<C(!new)>(r: Reg<C>, c: C)
    requires WellFormed(r)
    ensures var (r', ok) := Add(r, c);
            && WellFormed(r')
            && (ok <==> c !in r.closed && c !in r.conns)
            && Elems(r'.conns) == (if ok then Elems(r.conns) + {c} else Elems(r.conns))
            && r'.closed == r.closed - {c}
            && |r'.conns| == |r.conns| + (if ok then 1 else 0)
  {
    var (r', ok) := Add(r, c);
    if ok {
      assert forall x :: x in r'.conns <==> x in r.conns || x == c;
    }
  }

  /** What remove does to the two sets: c leaves the stored ones or becomes a tombstone. */
  lemma RemoveSets<C(!new)>(r: Reg<C>, c: C)
    requires WellFormed(r)
    ensures var (r', ok) := Remove(r, c);
            && WellFormed(r')
            && (ok <==> c in r.conns)
            && Elems(r'.conns) == Elems(r.conns) - {c}
            && r'.closed == (if ok then r.closed else r.closed + {c})
            && |r'.conns| == |r.conns| - (if ok then 1 else 0)
  {
    if c in r.conns {
      SwapRemoveElems(r.conns, IndexOf(r.conns, c));
      var (r', ok) := Remove(r, c);
      assert forall x :: x in r'.conns ==> x in Elems(r.conns);
    }
  }

  /** Slot by slot: the last connection takes the place of the removed one, and the others keep
      theirs. */
  lemma RemoveBySlot<C(!new)>(r: Reg<C>, i: nat)
    requires WellFormed(r) && i < |r.conns|
    ensures var conns := Remove(r, r.conns[i]).0.conns;
            && |conns| == |r.conns| - 1
            && (forall j :: 0 <= j < |conns| && j != i ==> conns[j] == r.conns[j])
            && (i < |conns| ==> conns[i] == r.conns[|conns|])
  {
    var j := IndexOf(r.conns, r.conns[i]);
    assert j == i;
  }

  /** The slice, the slot map and the tombstone map behind the registry. The backing array may
      be longer than the slice; `zero` is the zero value of the element type. */
  class Store<C(==, !new)> {
    const zero: C
    var data: array<C>
    var size: nat
    var slot: map<C, int>
    var closed: set<C>

    /** `slot` is the inverse of the stored slice, tombstones are not stored, and every
        backing cell past the slice holds the zero value. */
    ghost predicate Valid()
      reads this, data
    {
      && size <= data.Length
      && (forall i :: 0 <= i < size ==> data[i] in slot && slot[data[i]] == i)
      && (forall c :: c in slot ==> 0 <= slot[c] < size && data[slot[c]] == c)
      && (forall c :: c in slot ==> c !in closed)
      && (forall i :: size <= i < data.Length ==> data[i] == zero)
    }

    ghost function View(): (r: Reg<C>)
      requires Valid()
      reads this, data
      ensures r.conns == data[..size] && r.closed == closed
      ensures WellFormed(r)
    {
      assert forall i :: 0 <= i < size ==> data[..size][i] in slot && slot[data[..size][i]] == i;
      Reg(data[..size], closed)
    }

    /** The map answers the same questions as a search of the slice. */
    lemma SlotIsIndex(c: C)
      requires Valid()
      ensures c in slot <==> c in View().conns
      ensures c in slot ==> IndexOf(View().conns, c) == slot[c]
    {
      if c in slot {
        assert View().conns[slot[c]] == c;
      }
    }

    constructor (capacity: nat, zero: C)
      ensures Valid() && fresh(data)
      ensures View() == Reg([], {}) && this.zero == zero && data.Length == capacity
    {
      this.zero := zero;
      data := new C[capacity](_ => zero);
      size := 0;
      slot := map[];
      closed := {};
    }

    /** Appending past the capacity moves the slice to a larger array, as append does. */
    method Grow()
      requires Valid()
      modifies this`data
      ensures Valid() && fresh(data) && data.Length > size
      ensures View() == old(View())
    {
      var smaller, z := data, zero;
      data := new C[2 * size + 1](i requires 0 <= i reads smaller => if i < smaller.Length then smaller[i] else z);
      assert data[..size] == smaller[..size];
    }

    method Append(c: C)
      requires Valid() && c !in slot && c !in closed
      modifies this`data, this`size, this`slot, data
      ensures Valid() && (data == old(data) || fresh(data))
      ensures View() == old(View()).(conns := old(View()).conns + [c])
    {
      if size == data.Length {
        Grow();
      }
      slot := slot[c := size];
      data[size] := c;
      size := size + 1;
    }

    method AddConn(c: C) returns (ok: bool)
      requires Valid()
      modifies this, data
      ensures Valid() && (data == old(data) || fresh(data))
      ensures (View(), ok) == Add(old(View()), c)
    {
      SlotIsIndex(c);
      if c in closed {
        closed := closed - {c};
        return false;
      }
      if c in slot {
        return false;
      }
      Append(c);
      ok := true;
    }

    method RemoveConn(c: C) returns (ok: bool)
      requires Valid()
      modifies this, data
      ensures Valid() && data == old(data)
      ensures (View(), ok) == Remove(old(View()), c)
    {
      SlotIsIndex(c);
      if c !in slot {
        closed := closed + {c};
        return false;
      }
      FillHole(slot[c]);
      ok := true;
    }

    method FillHole(i: nat)
      requires Valid() && i < size
      modifies this`slot, this`size, data
      ensures Valid()
      ensures View() == old(View()).(conns := SwapRemove(old(View()).conns, i))
    {
      ghost var before := data[..size];
      var c := data[i];
      var last := size - 1;
      var moved := data[last];
      data[i] := moved;
      slot := slot[moved := i];
      data[last] := zero;
      size := last;
      slot := slot - {c};
      assert data[..size] == SwapRemove(before, i);
    }

    method Len() returns (n: nat)
      requires Valid()
      ensures n == |View().conns|
    {
      n := size;
    }

    method At(k: nat) returns (c: C)
      requires Valid() && size > 0
      ensures c == View().conns[Wrap(k, size)]
    {
      WrapIsMod(k, size);
      c := data[k % size];
    }

    /** dst is emptied and refilled one connection at a time. */
    method TakeBatch(cursor: nat, n: nat) returns (dst: seq<C>, next: nat)
      requires Valid()
      ensures (dst, next) == Batch(View().conns, cursor, n)
    {
      dst := [];
      var total := size;
      if total == 0 {
        return [], 0;
      }
      ghost var conns := View().conns;
      ghost var want := Batch(conns, cursor, n).0;
      var n := if n > total then total else n;
      for i := 0 to n
        invariant |dst| == i
        invariant forall j :: 0 <= j < i ==> dst[j] == want[j]
      {
        var c := At(cursor + i);
        dst := dst + [c];
      }
      assert dst == want;
      WrapIsMod(cursor + n, total);
      next := (cursor + n) % total;
    }
  }
}
