/** Value-level view of the server's shared connection array: the round-robin
    cursor, the worker's scan and the count of occupied slots. */
module Slots {
  import opened Wrappers

  /** A slot holding 0 is empty; any other value is a pending connection descriptor. */
  const Empty := 0

  /** The dispatcher's cursor step: back to slot 0 after the last slot, otherwise one on. */
  function Advance(cursor: int, size: int): (next: int)
    requires 0 <= cursor < size
    ensures 0 <= next < size
    ensures next == (cursor + 1) % size
  {
    if cursor == size - 1 then 0 else cursor + 1
  }

  /** The cursor after `j` placements, starting from slot 0. */
  function CursorAfter(j: nat, size: int): (c: int)
    requires size > 0
    ensures 0 <= c < size
  {
    if j == 0 then 0 else Advance(CursorAfter(j - 1, size), size)
  }

  /** Round-robin order: the j-th placement (counting from 0) goes to slot j mod size. */
  lemma {:induction false} CursorAfterIsModulo(j: nat, size: int)
    requires size > 0
    ensures CursorAfter(j, size) == j % size
  {
    if j > 0 {
      CursorAfterIsModulo(j - 1, size);
      var q, r := (j - 1) / size, (j - 1) % size;
      if r + 1 == size {
        ModUnique(j, q + 1, 0, size);
      } else {
        ModUnique(j, q, r + 1, size);
      }
    }
  }

  /** Euclidean division has one quotient and one remainder. */
  lemma ModUnique(j: int, q: int, r: int, size: int)
    requires size > 0 && 0 <= r < size && j == q * size + r
    ensures j % size == r
  {
    var q', r' := j / size, j % size;
    assert (q - q') * size == r' - r;
    if q > q' {
      MulAtLeast(q - q', size);
    } else if q < q' {
      MulAtLeast(q' - q, size);
    }
  }

  lemma MulAtLeast(a: int, b: int)
    requires a >= 1 && b > 0
    ensures a * b >= b
  {
  }

  /** Slot `k` is occupied and every slot above it is empty. */
  ghost predicate HighestOccupiedAt(s: seq<int>, k: int)
  {
    0 <= k < |s| && s[k] != Empty && forall j :: k < j < |s| ==> s[j] == Empty
  }

  /** The value of the highest-index occupied slot, or None when every slot is empty. */
  function LastOccupied(s: seq<int>): (r: Option<int>)
    ensures r.None? <==> forall i :: 0 <= i < |s| ==> s[i] == Empty
    ensures r.Some? ==> exists k :: HighestOccupiedAt(s, k) && s[k] == r.value
  {
    if |s| == 0 then None
    else if s[|s| - 1] != Empty then
      assert HighestOccupiedAt(s, |s| - 1);
      Some(s[|s| - 1])
    else
      var prefix := s[..|s| - 1];
      assert forall i :: 0 <= i < |prefix| ==> prefix[i] == s[i];
      var r := LastOccupied(prefix);
      assert r.Some? ==> exists k :: HighestOccupiedAt(s, k) && s[k] == r.value by {
        if r.Some? {
          var k :| HighestOccupiedAt(prefix, k) && prefix[k] == r.value;
          assert HighestOccupiedAt(s, k);
        }
      }
      r
  }

  /** The number of occupied slots. */
  function Occupied(s: seq<int>): (n: nat)
    ensures n <= |s|
    ensures n == 0 <==> forall i :: 0 <= i < |s| ==> s[i] == Empty
  {
    if |s| == 0 then 0
    else Occupied(s[..|s| - 1]) + (if s[|s| - 1] != Empty then 1 else 0)
  }

  /** Writing one slot changes the occupied count by what left and what arrived there. */
  lemma {:induction false} OccupiedAfterWrite(s: seq<int>, i: nat, v: int)
    requires i < |s|
    ensures Occupied(s[i := v]) ==
      Occupied(s) - (if s[i] != Empty then 1 else 0) + (if v != Empty then 1 else 0)
  {
    var t := s[i := v];
    var n := |s| - 1;
    if i < n {
      assert t[..n] == s[..n][i := v];
      OccupiedAfterWrite(s[..n], i, v);
    } else {
      assert t[..n] == s[..n];
    }
  }
}
