/**
 The acknowledged counter as one caller sees it: the ring is an array updated in place, and
 Acknowledge runs its sweep loop to the end.
 */
module AckCounter {
  import opened AckProtocol

  /** The ring once the loop has taken the ids from+1..to and no others. */
  ghost predicate Taken(before: seq<bool>, from: int, after: seq<bool>, to: int)
    requires |before| == |after| == WINDOW
  {
    && from <= to <= from + WINDOW
    && (forall id :: from < id <= to ==> before[Slot(id)] && !after[Slot(id)] && id != Slot(from))
    && (forall id :: to < id <= from + WINDOW ==> after[Slot(id)] == before[Slot(id)])
  }

  /** What the whole sweep does to a ring, starting after id `from` and stopping after id `to`. */
  ghost predicate Swept(before: seq<bool>, from: int, after: seq<bool>, to: int)
    requires |before| == |after| == WINDOW
  {
    && Taken(before, from, after, to)
    && (to < from + WINDOW ==> to + 1 == Slot(from) || !before[Slot(to + 1)])
  }

  lemma NextInWindow(before: seq<bool>, from: int, ring: seq<bool>, index: int)
    requires |before| == |ring| == WINDOW && Taken(before, from, ring, index - 1) && ring[Slot(index)]
    ensures from < index <= from + WINDOW
  {
    assert Slot(from + WINDOW + 1) == Slot(from + 1);
  }

  lemma TakeOne(before: seq<bool>, from: int, ring: seq<bool>, index: int)
    requires |before| == |ring| == WINDOW && Taken(before, from, ring, index - 1)
    requires index != Slot(from) && ring[Slot(index)]
    ensures Taken(before, from, ring[Slot(index) := false], index)
  {
    hide Slot;
    NextInWindow(before, from, ring, index);
    forall id | from < id <= from + WINDOW && Slot(id) == Slot(index) ensures id == index {
      SlotInjective(id, index);
    }
  }

  /** The ring and the limit together stand for a set of acknowledged ids. */
  ghost predicate Represents(window: seq<bool>, start: int, limit: int, acked: set<int>)
    requires |window| == WINDOW
  {
    && start - 1 <= limit
    && (forall id :: id in acked ==> start <= id <= limit + WINDOW)
    && (forall id :: start <= id <= limit ==> id in acked)
    && (forall id :: limit < id <= limit + WINDOW ==> (window[Slot(id)] <==> id in acked))
  }

  lemma MarkRepresents(window: seq<bool>, start: int, limit: int, acked: set<int>, value: int)
    requires |window| == WINDOW && Represents(window, start, limit, acked)
    requires limit < value <= limit + WINDOW
    ensures Represents(window[Slot(value) := true], start, limit, acked + {value})
  {
    forall id | limit < id <= limit + WINDOW && Slot(id) == Slot(value) ensures id == value {
      SlotInjective(id, value);
    }
  }

  /**
   A sweep leaves the represented set alone. It moves the limit to the largest n with start..n all
   acknowledged, exactly when the index guard does not fire; when it fires, one id is left in the ring.
   */
  lemma SweepRepresents(before: seq<bool>, start: int, from: int, after: seq<bool>, to: int, acked: set<int>)
    requires |before| == |after| == WINDOW
    requires Represents(before, start, from, acked) && Swept(before, from, after, to)
    ensures Represents(after, start, to, acked)
    ensures LimitExact(start, acked, to) <==> !GuardFires(from, acked)
    ensures GuardFires(from, acked) ==> to == from + WINDOW - 1
  {
    forall id | to < id <= to + WINDOW ensures after[Slot(id)] <==> id in acked {
      if id > from + WINDOW {
        assert Slot(id) == Slot(id - WINDOW);
      }
    }
    NextTakenIff(before, start, from, after, to, acked);
    if to + 1 in acked {
      assert AllIn(start, to + 1, acked);
    } else {
      forall n | n > to && start - 1 <= n ensures !AllIn(start, n, acked) {
        assert start <= to + 1 <= n;
      }
    }
  }

  /** The id after the swept run is acknowledged only when the guard fired. */
  lemma NextTakenIff(before: seq<bool>, start: int, from: int, after: seq<bool>, to: int, acked: set<int>)
    requires |before| == |after| == WINDOW
    requires Represents(before, start, from, acked) && Swept(before, from, after, to)
    ensures to + 1 in acked <==> GuardFires(from, acked)
    ensures GuardFires(from, acked) ==> to == from + WINDOW - 1
  {
    if to + 1 in acked {
      assert to + 1 == Slot(from);
      assert to == from + WINDOW - 1;
    }
    if GuardFires(from, acked) {
      assert Slot(from) == from + WINDOW;
      assert to < from + WINDOW by {
        assert Slot(from + WINDOW) == Slot(from);
      }
    }
  }

  /** From limit -1 with a full ring the sweep stops at WINDOW - 2 and leaves the last id behind. */
  lemma GuardCutsShort() returns (before: seq<bool>, after: seq<bool>, acked: set<int>)
    ensures |before| == |after| == WINDOW
    ensures Represents(before, 0, -1, acked) && Swept(before, -1, after, WINDOW - 2)
    ensures AllIn(0, WINDOW - 1, acked) && !LimitExact(0, acked, WINDOW - 2)
  {
    before := seq(WINDOW, _ => true);
    after := seq(WINDOW, i => i == WINDOW - 1);
    acked := set id | 0 <= id < WINDOW && before[id];
    assert AllIn(0, WINDOW - 1, acked);
    FullRingSwept(before, after);
  }

  lemma FullRingSwept(before: seq<bool>, after: seq<bool>)
    requires |before| == |after| == WINDOW
    requires forall i :: 0 <= i < WINDOW ==> before[i] && (after[i] <==> i == WINDOW - 1)
    ensures Swept(before, -1, after, WINDOW - 2)
  {
    assert Slot(-1) == WINDOW - 1;
    forall id | 0 <= id < WINDOW ensures Slot(id) == id {}
  }

  class AcknowledgedCounter {
    var counter: int
    var locked: bool
    const window: array<bool>
    var limit: int
    ghost const start: int
    ghost var acked: set<int>

    ghost predicate Valid()
      reads this, window
    {
      && window.Length == WINDOW
      && Represents(window[..], start, limit, acked)
      && (forall id :: id in acked ==> id < counter)
      && limit < counter
    }

    constructor (start: int)
      ensures Valid() && !locked && counter == start && limit == start - 1 && acked == {}
      ensures this.start == start && fresh(window)
    {
      this.counter, this.locked, this.limit := start, false, start - 1;
      this.window := new bool[WINDOW](_ => false);
      this.start, this.acked := start, {};
    }

    method Next() returns (id: int)
      modifies this`counter
      ensures id == old(counter) && counter == old(counter) + 1
    {
      counter := counter + 1;
      id := counter - 1;
    }

    method Last() returns (id: int)
      ensures id == limit
    {
      id := limit;
    }

    /** The loop of Acknowledge that moves a contiguous run of ids from the ring into `limit`. */
    method Sweep()
      requires window.Length == WINDOW
      modifies this`limit, window
      ensures Swept(old(window[..]), old(limit), window[..], limit)
    {
      ghost var before := window[..];
      var from := limit;
      var beforeFirstSlot := Slot(from);
      var index := from + 1;
      while index != beforeFirstSlot
        invariant Taken(before, from, window[..], index - 1)
        decreases from + WINDOW - index
      {
        var slot := Slot(index);
        if !window[slot] {
          break;
        }
        TakeOne(before, from, window[..], index);
        window[slot] := false;
        index := index + 1;
      }
      limit := index - 1;
    }

    /**
     Panics exactly on a slot that is already taken. For an id that was issued, is new and fits the
     window, and with the lock free, the new limit is the largest n with start..n all acknowledged
     exactly when the index guard does not fire.
     */
    method Acknowledge(value: int) returns (panicked: bool)
      requires window.Length == WINDOW
      modifies this`limit, this`locked, this`acked, window
      ensures panicked <==> old(window[Slot(value)])
      ensures panicked ==> limit == old(limit) && window[..] == old(window[..]) && acked == old(acked)
      ensures locked == old(locked)
      ensures !panicked && locked ==>
                limit == old(limit) && window[..] == old(window[..])[Slot(value) := true]
      ensures !panicked && !locked ==>
                Swept(old(window[..])[Slot(value) := true], old(limit), window[..], limit)
      ensures old(Valid()) && old(limit) < value < counter <= old(limit) + WINDOW + 1 && value !in old(acked) ==>
                && !panicked
                && Valid()
                && acked == old(acked) + {value}
                && (!locked ==> (LimitExact(start, acked, limit) <==> !GuardFires(old(limit), acked)))
                && (!locked && GuardFires(old(limit), acked) ==> limit == old(limit) + WINDOW - 1)
    {
      ghost var ring := window[..];
      if window[Slot(value)] {
        return true;
      }
      panicked := false;
      window[Slot(value)] := true;
      acked := acked + {value};
      ghost var before := window[..];
      if old(Valid()) && limit < value <= limit + WINDOW {
        MarkRepresents(ring, start, limit, old(acked), value);
      }
      if locked {
        return;
      }
      locked := true;
      Sweep();
      locked := false;
      if old(Valid()) && old(limit) < value < counter <= old(limit) + WINDOW + 1 && value !in old(acked) {
        SweepRepresents(before, start, old(limit), window[..], limit, acked);
        assert limit > old(limit) ==> limit in acked;
      }
    }
  }

  /** A run that reaches the guard: ids 0..WINDOW-1 are issued, and 0 is acknowledged last. */
  method FirstAcknowledgedLast() returns (c: AcknowledgedCounter)
    ensures c.Valid() && c.start == 0 && AllIn(0, 1048575, c.acked) && c.limit == 1048574
  {
    c := new AcknowledgedCounter(0);
    var panicked;
    for i := 0 to WINDOW
      invariant c.window.Length == WINDOW && c.Valid() && c.start == 0 && !c.locked && fresh(c) && fresh(c.window)
      invariant c.counter == i && c.limit == -1 && c.acked == {}
    {
      var id := c.Next();
    }
    for i := 1 to WINDOW
      invariant c.window.Length == WINDOW && c.Valid() && c.start == 0 && !c.locked && fresh(c) && fresh(c.window)
      invariant c.counter == WINDOW && c.limit == -1
      invariant forall id :: id in c.acked <==> 1 <= id < i
    {
      panicked := c.Acknowledge(i);
      assert 0 !in c.acked;
      assert !AllIn(0, 0, c.acked);
    }
    panicked := c.Acknowledge(0);
    assert GuardFires(-1, c.acked);
  }
}
