/**
 * Value types shared by the elevator simulation: the three enumerations,
 * the request record, and a snapshot of the observable elevator state
 * (the read-only view that the display and the dispatcher work from).
 */
module Types {

  datatype Option<+T> = None | Some(value: T)

  /** Direction of travel; Idle whenever the elevator is not mid-movement. */
  datatype Direction = Up | Down | Idle

  /** Elevator class; it is stored but does not alter behaviour. */
  datatype ElevatorType = Standard | HighSpeed | Glass | Freight

  /** Availability status; only Available elevators are dispatched. */
  datatype ElevatorStatus = Available | OutOfService | Maintenance

  /** A transport order: origin floor, destination floor and passenger count. */
  datatype ElevatorRequest = ElevatorRequest(FromFloor: int, ToFloor: int, Passengers: int)

  /**
   * Point-in-time copy of everything an elevator exposes for reading
   * (floor, direction, load, capacity, status, class).
   */
  datatype ElevatorState = ElevatorState(
    currentFloor: int,
    currentDirection: Direction,
    currentPassengers: int,
    maxCapacity: int,
    status: ElevatorStatus,
    elevatorType: ElevatorType)
}
