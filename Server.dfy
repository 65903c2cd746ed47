/** The shared connection array of the server: the dispatcher places accepted
    connections into it round-robin and posts the semaphore; a worker waits on
    the semaphore and scans the array for a connection. Each method is one
    atomic step; threads, the mutex and blocking are not modelled. */
module Server {
  import opened Wrappers
  import opened Slots

  class ConnectionTable {
    /** The array of `arraysize` slots, allocated zeroed at startup. */
    const slots: array<int>
    /** Slot the dispatcher writes the next accepted connection into. */
    var nextIndex: int
    /** Value of the counting semaphore: connections posted and not yet waited for. */
    var pending: int
    /** Number of connections placed so far. */
    ghost var placements: nat

    ghost predicate Valid()
      reads this
    {
      slots.Length > 0 &&
      pending >= 0 &&
      nextIndex == CursorAfter(placements, slots.Length)
    }

    /** The semaphore count matches the number of occupied slots. */
    ghost predicate Balanced()
      reads this, slots
    {
      pending == Occupied(slots[..])
    }

    /** Startup: a zeroed array of `arraysize` slots, cursor 0, semaphore 0. */
    constructor (arraysize: int)
      requires arraysize > 0
      ensures Valid() && Balanced()
      ensures fresh(slots) && slots.Length == arraysize
      ensures forall i :: 0 <= i < arraysize ==> slots[i] == Empty
      ensures nextIndex == 0 && pending == 0 && placements == 0
    {
      slots := new int[arraysize](_ => Empty);
      nextIndex := 0;
      pending := 0;
      placements := 0;
    }

    /** Round-robin step of the cursor, wrapping after the last slot. This is a
        sub-step of `Place`, which also counts the placement; on its own it
        does not keep `Valid()`. */
    method AdvanceCursor()
      requires 0 <= nextIndex < slots.Length
      modifies this`nextIndex
      ensures nextIndex == Advance(old(nextIndex), slots.Length)
      ensures nextIndex == (old(nextIndex) + 1) % slots.Length
      ensures 0 <= nextIndex < slots.Length
    {
      if nextIndex == slots.Length - 1 {
        nextIndex := 0;
      } else {
        nextIndex := nextIndex + 1;
      }
    }

    /** Dispatcher step for an accepted connection `fd`: report whether the
        cursor's slot is still occupied, write `fd` there, advance the cursor
        and post the semaphore. */
    method Place(fd: int) returns (occupied: bool)
      requires Valid() && fd != Empty
      modifies slots, this`nextIndex, this`pending, this`placements
      ensures Valid()
      ensures occupied == (old(slots[nextIndex]) != Empty)
      ensures old(nextIndex) == old(placements) % slots.Length
      ensures slots[..] == old(slots[..])[old(nextIndex) := fd]
      ensures nextIndex == (old(nextIndex) + 1) % slots.Length
      ensures placements == old(placements) + 1
      ensures pending == old(pending) + 1
      ensures Occupied(slots[..]) == old(Occupied(slots[..])) + (if occupied then 0 else 1)
      ensures old(Balanced()) && !occupied ==> Balanced()
    {
      CursorAfterIsModulo(placements, slots.Length);
      OccupiedAfterWrite(slots[..], nextIndex, fd);
      occupied := slots[nextIndex] != Empty;
      slots[nextIndex] := fd;
      AdvanceCursor();
      placements := placements + 1;
      pending := pending + 1;
    }

    /** Worker step as written: wait on the semaphore, then scan every slot,
        keeping the last occupied one and emptying each occupied slot. */
    method Take() returns (conn: Option<int>)
      requires Valid() && pending > 0
      modifies slots, this`pending
      ensures Valid()
      ensures pending == old(pending) - 1
      ensures conn == LastOccupied(old(slots[..]))
      ensures forall i :: 0 <= i < slots.Length ==> slots[i] == Empty
      ensures (forall i :: 0 <= i < slots.Length ==> old(slots[i]) == Empty) ==>
                conn == None && slots[..] == old(slots[..])
      ensures old(Balanced()) && old(Occupied(slots[..])) >= 2 ==> !Balanced()
    {
      pending := pending - 1;
      conn := None;
      ghost var s := slots[..];
      var i := 0;
      while i < slots.Length
        invariant 0 <= i <= slots.Length
        invariant pending == old(pending) - 1
        invariant conn == LastOccupied(s[..i])
        invariant forall k :: 0 <= k < i ==> slots[k] == Empty
        invariant forall k :: i <= k < slots.Length ==> slots[k] == s[k]
      {
        assert s[..i + 1][..i] == s[..i];
        if slots[i] != Empty {
          conn := Some(slots[i]);
          slots[i] := Empty;
        }
        i := i + 1;
      }
      assert s[..slots.Length] == s;
      assert forall k :: 0 <= k < slots.Length ==> slots[..][k] == Empty;
    }

    /** Worker step that empties only the slot it returns: the same scan,
        remembering where the last occupied slot was. */
    method TakeOne() returns (conn: Option<int>)
      requires Valid() && pending > 0
      modifies slots, this`pending
      ensures Valid()
      ensures pending == old(pending) - 1
      ensures conn == LastOccupied(old(slots[..]))
      ensures conn.None? ==> slots[..] == old(slots[..])
      ensures conn.Some? ==>
                exists k :: HighestOccupiedAt(old(slots[..]), k) && old(slots[k]) == conn.value &&
                            slots[..] == old(slots[..])[k := Empty]
      ensures old(Balanced()) ==> Balanced() && conn.Some?
    {
      pending := pending - 1;
      conn := None;
      ghost var s := slots[..];
      var found := 0;
      var i := 0;
      while i < slots.Length
        invariant 0 <= i <= slots.Length && 0 <= found < slots.Length
        invariant conn == LastOccupied(s[..i])
        invariant conn.Some? ==> found < i && s[found] == conn.value && s[found] != Empty
        invariant conn.Some? ==> forall j :: found < j < i ==> s[j] == Empty
      {
        assert s[..i + 1][..i] == s[..i];
        if slots[i] != Empty {
          conn := Some(slots[i]);
          found := i;
        }
        i := i + 1;
      }
      assert s[..slots.Length] == s;
      if conn.Some? {
        assert HighestOccupiedAt(s, found);
        OccupiedAfterWrite(s, found, Empty);
        slots[found] := Empty;
      }
    }
  }

  /** Two connections placed into a two-slot array, then two worker steps as
      written: the first step returns the second connection and discards the
      first; the second step finds nothing although the semaphore let it pass. */
  method ScanDropsConnection() returns (first: Option<int>, second: Option<int>)
    ensures first == Some(6) && second == None
  {
    var table := new ConnectionTable(2);
    var _ := table.Place(5);
    var _ := table.Place(6);
    assert table.slots[..] == [5, 6];
    first := table.Take();
    second := table.Take();
  }

  /** The same scenario with TakeOne: each connection is served exactly once. */
  method TakeOneServesBoth() returns (first: Option<int>, second: Option<int>)
    ensures first == Some(6) && second == Some(5)
  {
    var table := new ConnectionTable(2);
    var _ := table.Place(5);
    var _ := table.Place(6);
    assert table.slots[..] == [5, 6];
    first := table.TakeOne();
    assert table.slots[..] == [5, Empty];
    second := table.TakeOne();
  }
}
