/**
 * Two defects of the passenger bookkeeping, each modelled as written next to
 * the corrected behaviour the rest of the model uses.
 *
 * 1. The capacity check and the boarding add run in 32-bit signed arithmetic,
 *    which wraps: a huge group can pass the check and drive the load negative.
 * 2. The console accepts a negative passenger count, and nothing downstream
 *    rejects it: boarding a negative group lowers the load below zero.
 */
module Findings {
  import opened Types
  import opened Buildings
  import opened ConsoleInput

  const Int32Min: int := -0x8000_0000
  const Int32Max: int := 0x7FFF_FFFF

  /** Two's-complement wrap-around of an integer into the 32-bit signed range. */
  function Wrap32(x: int): (r: int)
    ensures Int32Min <= r <= Int32Max
    ensures (r - x) % 0x1_0000_0000 == 0
    ensures Int32Min <= x <= Int32Max ==> r == x
  {
    (x - Int32Min) % 0x1_0000_0000 + Int32Min
  }

  /**
   * The capacity check as written: the sum is taken in 32-bit arithmetic.
   * Where the sum does not overflow it is the intended check.
   */
  function HasCapacityForAsWritten(current: int, maxCapacity: int, passengers: int): (r: bool)
    ensures Int32Min <= current + passengers <= Int32Max ==> (r <==> current + passengers <= maxCapacity)
  {
    Wrap32(current + passengers) <= maxCapacity
  }

  /**
   * Boarding as written: the guard and the add both wrap. Returns success and
   * the new load. A refused group leaves the load as it was; an accepted one
   * never leaves it above the capacity, but may leave it anywhere below,
   * negative included. Where nothing overflows it is the intended boarding:
   * success exactly when the group fits, and the load grows by the group.
   */
  function AddPassengersAsWritten(current: int, maxCapacity: int, count: int): (r: (bool, int))
    ensures !r.0 ==> r.1 == current
    ensures r.0 ==> Int32Min <= r.1 <= maxCapacity
    ensures Int32Min <= current + count <= Int32Max ==>
      (r.0 <==> current + count <= maxCapacity) && (r.0 ==> r.1 == current + count)
  {
    if !HasCapacityForAsWritten(current, maxCapacity, count) then (false, current)
    else (true, Wrap32(current + count))
  }

  /**
   * Letting people off as written: the guard compares, the subtraction wraps.
   * For a group of at least none and no more than are aboard it is the
   * intended alighting; a negative count slips past the guard and, short of
   * overflow, raises the load instead of lowering it.
   */
  function RemovePassengersAsWritten(current: int, count: int): (r: (bool, int))
    ensures !r.0 ==> r.1 == current
    ensures 0 <= count <= current <= Int32Max ==> r == (true, current - count)
    ensures count < 0 <= current && current - count <= Int32Max ==> r == (true, current - count) && r.1 > current
    ensures count > current ==> !r.0
  {
    if current < count then (false, current) else (true, Wrap32(current - count))
  }

  /**
   * Counterexample to the capacity invariant: a car of capacity 10 with 5
   * aboard accepts a group of 2147483647 and ends with a negative load.
   */
  lemma WrapAroundBoardsHugeGroup()
    ensures AddPassengersAsWritten(5, 10, Int32Max) == (true, -2147483644)
    ensures !(0 <= AddPassengersAsWritten(5, 10, Int32Max).1 <= 10)
  {
    assert Wrap32(5 + Int32Max) == -2147483644;
  }

  /**
   * The loads of the chosen car across one request as written: after boarding
   * and after the group has left, starting from `load` aboard. A group that
   * fails the capacity check is turned away and the load stays as it was.
   * Within the 32-bit range and for a valid load and group, the group is
   * carried exactly when it fits, and the car ends as loaded as it started.
   */
  function TripLoadsAsWritten(load: int, maxCapacity: int, count: int): (r: seq<int>)
    ensures |r| == 2
    ensures 0 <= load <= maxCapacity <= Int32Max && 0 <= count && load + count <= Int32Max ==>
      r == (if load + count <= maxCapacity then [load + count, load] else [load, load])
  {
    if !HasCapacityForAsWritten(load, maxCapacity, count) then [load, load]
    else
      var boarded := AddPassengersAsWritten(load, maxCapacity, count);
      var alighted := RemovePassengersAsWritten(boarded.1, count);
      [boarded.1, alighted.1]
  }

  /**
   * Counterexample: the console line "call 1 5 -3" yields a request for -3
   * people, and an empty car carrying it holds -3 people between the two
   * floors, below the lower bound of the load.
   */
  lemma NegativeGroupAccepted(rt: TextRuntime, b: Building)
    requires !IsNullOrWhiteSpace(rt, "call")
    requires rt.toLower("call") == "call"
    requires rt.tryParse("1") == Some(1) && rt.tryParse("5") == Some(5) && rt.tryParse("-3") == Some(-3)
    requires b.IsValidFloor(1) && b.IsValidFloor(5)
    ensures Classify(rt, b, "call 1 5 -3") == Call(ElevatorRequest(1, 5, -3))
    ensures TripLoadsAsWritten(0, 10, -3) == [-3, 0]
  {
    var tokens := ["call", "1", "5", "-3"];
    assert Join(tokens, ' ') == "call 1 5 -3";
    WellFormedCall(rt, b, tokens);
    assert Wrap32(0 + -3) == -3;
  }
}
