/**
 * The building: a floor count and an ordered, fixed list of elevators,
 * plus the floor-range check used to validate requests.
 */
module Buildings {
  import opened Types
  import opened Elevators

  /**
   * The building never changes after construction: a value holding the floor
   * count and the cars in the order they were handed over.
   */
  datatype Building = Building(NumberOfFloors: int, elevators: seq<Elevator>) {

    /** The cars, in construction order: the building's own list, every car once per listing. */
    function GetAllElevators(): (r: seq<Elevator>)
      ensures |r| == |elevators|
      ensures forall k :: 0 <= k < |r| ==> r[k] == elevators[k]
    {
      elevators
    }

    /**
     * A floor exists when it lies between 1 and the floor count: floor 0 and
     * negative floors never do, nor does any floor of a building with fewer
     * than one floor, while floors 1 and `NumberOfFloors` always do when the
     * building has one.
     */
    predicate IsValidFloor(floor: int): (r: bool)
      ensures r ==> 1 <= floor <= NumberOfFloors
      ensures floor < 1 || NumberOfFloors < 1 ==> !r
      ensures NumberOfFloors >= 1 && (floor == 1 || floor == NumberOfFloors) ==> r
    {
      floor >= 1 && floor <= NumberOfFloors
    }
  }

  /**
   * Build from the caller's list of cars. The building keeps its own copy of
   * the list, so later edits to `elevators` do not reach it.
   */
  method NewBuilding(numberOfFloors: int, elevators: array<Elevator>) returns (b: Building)
    ensures b.NumberOfFloors == numberOfFloors
    ensures b.GetAllElevators() == elevators[..]
  {
    b := Building(numberOfFloors, elevators[..]);
  }

  /** A caller that overwrites its own list after building still sees the original cars in the building. */
  method CallerEditsDoNotReachBuilding(first: Elevator, second: Elevator) returns (held: seq<Elevator>, floors: int)
    ensures held == [first] && floors == 20
  {
    var list := new Elevator[1](_ => first);
    var b := NewBuilding(20, list);
    list[0] := second;
    held, floors := b.GetAllElevators(), b.NumberOfFloors;
  }

  /** With 20 floors, floor 10 is valid and floor 25 is not. */
  lemma TwentyFloorBuilding(es: seq<Elevator>)
    ensures Building(20, es).IsValidFloor(10)
    ensures !Building(20, es).IsValidFloor(25)
  {
  }
}
