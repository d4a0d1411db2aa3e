/**
 * One elevator car: its mutable floor, direction, load and status, the
 * floor-by-floor movement loop and the guarded passenger updates.
 * The car's lock-protected sections run here as plain sequential code.
 */
module Elevators {
  import opened Types

  function Abs(x: int): nat
  {
    if x < 0 then -x else x
  }

  /** The direction a move from `from` to `target` sets before it starts stepping. */
  function Heading(from: int, target: int): Direction
  {
    if target > from then Up else Down
  }

  /** Where the car is, and which way it is heading, right after one step of a move. */
  datatype Position = Position(floor: int, direction: Direction)

  /**
   * Reference trajectory of a move: the position after each one-floor step
   * taken from `from` until `target` is reached (empty when already there).
   */
  function Travel(from: int, target: int): seq<Position>
    decreases Abs(target - from)
  {
    if from == target then []
    else
      var next := from + (if Heading(from, target) == Up then 1 else -1);
      [Position(next, Heading(from, target))] + Travel(next, target)
  }

  /** Closed form of the trajectory: step k lands exactly k + 1 floors from the start. */
  lemma {:induction false} TravelClosedForm(from: int, target: int)
    ensures |Travel(from, target)| == Abs(target - from)
    ensures forall k :: 0 <= k < |Travel(from, target)| ==>
      Travel(from, target)[k] ==
        Position(if target > from then from + k + 1 else from - k - 1, Heading(from, target))
    decreases Abs(target - from)
  {
    if from != target {
      var next := from + (if Heading(from, target) == Up then 1 else -1);
      TravelClosedForm(next, target);
      assert next != target ==> Heading(next, target) == Heading(from, target);
    }
  }

  /**
   * A move takes one step per floor of distance, each step one floor closer
   * to the target, never leaves the span between start and target, keeps the
   * heading Up exactly when the target is above the start, and ends on the target.
   */
  lemma TravelIsMonotone(from: int, target: int)
    ensures var t := Travel(from, target);
      && |t| == Abs(target - from)
      && (t != [] ==> t[|t| - 1].floor == target)
      && (forall k :: 0 <= k < |t| ==> Abs(target - t[k].floor) == Abs(target - from) - (k + 1))
      && (forall k :: 0 <= k < |t| ==> (t[k].direction == Up <==> target > from))
      && (forall k :: 0 <= k < |t| ==>
            (if from <= target then from <= t[k].floor <= target else target <= t[k].floor <= from))
  {
    TravelClosedForm(from, target);
  }

  /** Moving to the floor the car is already on takes no step at all. */
  lemma TravelToSelfIsEmpty(floor: int)
    ensures Travel(floor, floor) == []
  {
  }

  /**
   * An elevator car. `Id`, `MaxCapacity` and `Type` are fixed at construction;
   * the other fields change as the car moves and loads.
   */
  class Elevator {
    const Id: int
    const MaxCapacity: int
    const Type: ElevatorType
    var CurrentFloor: int
    var CurrentDirection: Direction
    var CurrentPassengers: int
    var Status: ElevatorStatus

    /** Class invariant: the load never drops below zero nor exceeds the capacity. */
    predicate Valid()
      reads this
    {
      0 <= CurrentPassengers <= MaxCapacity
    }

    /** Snapshot of the readable state. */
    function State(): ElevatorState
      reads this
    {
      ElevatorState(CurrentFloor, CurrentDirection, CurrentPassengers, MaxCapacity, Status, Type)
    }

    /** A new car waits empty and available on floor 1. */
    constructor (id: int, maxCapacity: int, elevatorType: ElevatorType)
      ensures Id == id
      ensures State() == ElevatorState(1, Idle, 0, maxCapacity, Available, elevatorType)
      ensures Valid() <==> maxCapacity >= 0
    {
      Id := id;
      MaxCapacity := maxCapacity;
      Type := elevatorType;
      CurrentFloor := 1;
      CurrentDirection := Idle;
      CurrentPassengers := 0;
      Status := Available;
    }

    /** The standard car: capacity 10, class Standard, otherwise a new car. */
    constructor StandardElevator(id: int)
      ensures Id == id && Valid()
      ensures State() == ElevatorState(1, Idle, 0, 10, Available, ElevatorType.Standard)
    {
      Id := id;
      MaxCapacity := 10;
      Type := ElevatorType.Standard;
      CurrentFloor := 1;
      CurrentDirection := Idle;
      CurrentPassengers := 0;
      Status := Available;
    }

    /**
     * Step one floor at a time toward `targetFloor`, then stop Idle. The ghost
     * `trace` records the position after every step.
     */
    method MoveToFloor(targetFloor: int) returns (ghost trace: seq<Position>)
      modifies this
      ensures trace == Travel(old(CurrentFloor), targetFloor)
      ensures State() == old(State()).(currentFloor := targetFloor, currentDirection := Idle)
    {
      ghost var start := CurrentFloor;
      CurrentDirection := if targetFloor > CurrentFloor then Up else Down;
      trace := [];
      while CurrentFloor != targetFloor
        invariant CurrentDirection == Heading(start, targetFloor)
        invariant if targetFloor > start then start <= CurrentFloor <= targetFloor
                  else targetFloor <= CurrentFloor <= start
        invariant trace + Travel(CurrentFloor, targetFloor) == Travel(start, targetFloor)
        invariant CurrentPassengers == old(CurrentPassengers) && Status == old(Status)
        decreases Abs(targetFloor - CurrentFloor)
      {
        CurrentFloor := CurrentFloor + (if CurrentDirection == Up then 1 else -1);
        trace := trace + [Position(CurrentFloor, CurrentDirection)];
      }
      CurrentDirection := Idle;
    }

    /**
     * Whether the car accepts a move; only its status matters, not the floor:
     * an available car always does, a car out of service or under maintenance never.
     */
    predicate CanMoveTo(floor: int): (r: bool)
      reads this
      ensures Status == Available ==> r
      ensures Status == OutOfService || Status == Maintenance ==> !r
    {
      Status == Available
    }

    /**
     * Whether `passengers` more people fit. For a car within its capacity and
     * a group of at least one, a yes means boarding them keeps the load in
     * range, and a full car accepts nobody.
     */
    predicate HasCapacityFor(passengers: int): (r: bool)
      reads this
      ensures Valid() && passengers >= 0 && r ==> 0 <= CurrentPassengers + passengers <= MaxCapacity
      ensures CurrentPassengers >= MaxCapacity && passengers > 0 ==> !r
    {
      CurrentPassengers + passengers <= MaxCapacity
    }

    /** Board `count` people if they fit; otherwise refuse and change nothing. */
    method AddPassengers(count: int) returns (ok: bool)
      requires Valid() && count >= 0
      modifies this
      ensures Valid()
      ensures ok <==> old(CurrentPassengers) + count <= MaxCapacity
      ensures State() == old(State()).(currentPassengers :=
        if ok then old(CurrentPassengers) + count else old(CurrentPassengers))
    {
      if !HasCapacityFor(count) {
        return false;
      }
      CurrentPassengers := CurrentPassengers + count;
      return true;
    }

    /** Let `count` people off if that many are aboard; otherwise refuse and change nothing. */
    method RemovePassengers(count: int) returns (ok: bool)
      requires Valid() && count >= 0
      modifies this
      ensures Valid()
      ensures ok <==> old(CurrentPassengers) >= count
      ensures State() == old(State()).(currentPassengers :=
        if ok then old(CurrentPassengers) - count else old(CurrentPassengers))
    {
      if CurrentPassengers < count {
        return false;
      }
      CurrentPassengers := CurrentPassengers - count;
      return true;
    }

    /** Overwrite the status and nothing else. */
    method SetStatus(status: ElevatorStatus)
      modifies this
      ensures State() == old(State()).(status := status)
    {
      Status := status;
    }
  }

  /** Whether a car accepts a move does not depend on the floor asked for. */
  lemma CanMoveToIgnoresFloor(e: Elevator, floor: int, other: int)
    ensures e.CanMoveTo(floor) == e.CanMoveTo(other)
    ensures e.CanMoveTo(floor) <==> e.Status == Available
  {
  }

  /**
   * Boarding `count` people and letting the same `count` off again, with
   * nothing in between, leaves the car exactly as it was.
   */
  method BoardThenAlight(e: Elevator, count: int) returns (boarded: bool, alighted: bool)
    requires e.Valid() && count >= 0
    modifies e
    ensures e.Valid()
    ensures boarded <==> old(e.HasCapacityFor(count))
    ensures boarded ==> alighted
    ensures e.State() == old(e.State())
  {
    boarded := e.AddPassengers(count);
    if boarded {
      alighted := e.RemovePassengers(count);
    } else {
      alighted := false;
    }
  }

  /** A fresh standard car moved to floor 5 stands there, Idle. */
  method MoveUpScenario() returns (floor: int, direction: Direction)
    ensures floor == 5 && direction == Idle
  {
    var e := new Elevator.StandardElevator(1);
    ghost var trace := e.MoveToFloor(5);
    floor, direction := e.CurrentFloor, e.CurrentDirection;
  }

  /** A standard car placed on floor 10 and moved to floor 5 stands there, Idle. */
  method MoveDownScenario() returns (floor: int, direction: Direction)
    ensures floor == 5 && direction == Idle
  {
    var e := new Elevator.StandardElevator(1);
    e.CurrentFloor := 10;
    ghost var trace := e.MoveToFloor(5);
    floor, direction := e.CurrentFloor, e.CurrentDirection;
  }

  /** Boarding 5 into a fresh standard car succeeds; boarding 15 is refused and leaves it empty. */
  method BoardingScenarios() returns (okFive: bool, loadFive: int, okFifteen: bool, loadFifteen: int)
    ensures okFive && loadFive == 5
    ensures !okFifteen && loadFifteen == 0
  {
    var e := new Elevator.StandardElevator(1);
    okFive := e.AddPassengers(5);
    loadFive := e.CurrentPassengers;
    var f := new Elevator.StandardElevator(2);
    okFifteen := f.AddPassengers(15);
    loadFifteen := f.CurrentPassengers;
  }

  /** With 5 aboard, letting 3 off leaves 2; asking 10 off is refused and leaves 5. */
  method AlightingScenarios() returns (okThree: bool, loadThree: int, okTen: bool, loadTen: int)
    ensures okThree && loadThree == 2
    ensures !okTen && loadTen == 5
  {
    var e := new Elevator.StandardElevator(1);
    var boarded := e.AddPassengers(5);
    okThree := e.RemovePassengers(3);
    loadThree := e.CurrentPassengers;
    var f := new Elevator.StandardElevator(2);
    boarded := f.AddPassengers(5);
    okTen := f.RemovePassengers(10);
    loadTen := f.CurrentPassengers;
  }
}
