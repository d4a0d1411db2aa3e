/**
 * The controller: the read-process-register main loop, the per-request
 * pipeline (dispatch, capacity gate, move to pickup, board, move to
 * destination, alight), and the list of registered request executions.
 * Requests are processed one after another: each execution has completed
 * by the time it is registered.
 */
module Controller {
  import opened Types
  import opened Elevators
  import opened Buildings
  import opened Dispatch

  /** How the processing of one request ended (the source reports these on the console). */
  datatype RequestOutcome =
    | InvalidPassengerCount                               // negative passenger count, turned away
    | NoElevatorAvailable                                 // no car qualifies
    | CapacityExceeded(elevatorId: int, maxCapacity: int) // the chosen car cannot take the group
    | Completed(elevatorId: int)                          // carried from origin to destination

  /** One registered request execution. */
  datatype RequestTask = RequestTask(request: ElevatorRequest, outcome: RequestOutcome, IsCompleted: bool)

  /** The executions that have not completed, in their original order. */
  function Incomplete(tasks: seq<RequestTask>): seq<RequestTask>
  {
    if tasks == [] then []
    else (if tasks[0].IsCompleted then [] else [tasks[0]]) + Incomplete(tasks[1..])
  }

  /** Filtering a concatenation filters each part and keeps the parts in order. */
  lemma {:induction false} IncompleteAppend(a: seq<RequestTask>, b: seq<RequestTask>)
    ensures Incomplete(a + b) == Incomplete(a) + Incomplete(b)
  {
    if a != [] {
      IncompleteAppend(a[1..], b);
      assert (a + b)[1..] == a[1..] + b;
    } else {
      assert a + b == b;
    }
  }

  /**
   * After filtering, no completed execution is left, every incomplete one is
   * kept, and nothing new appears.
   */
  lemma {:induction false} IncompleteSpec(tasks: seq<RequestTask>)
    ensures forall t :: t in Incomplete(tasks) ==> t in tasks && !t.IsCompleted
    ensures forall t :: t in tasks && !t.IsCompleted ==> t in Incomplete(tasks)
    ensures |Incomplete(tasks)| <= |tasks|
  {
    if tasks != [] {
      IncompleteSpec(tasks[1..]);
      assert tasks == [tasks[0]] + tasks[1..];
    }
  }

  /** Filtering twice is filtering once. */
  lemma {:induction false} IncompleteIdempotent(tasks: seq<RequestTask>)
    ensures Incomplete(Incomplete(tasks)) == Incomplete(tasks)
  {
    if tasks != [] {
      IncompleteIdempotent(tasks[1..]);
      var head := if tasks[0].IsCompleted then [] else [tasks[0]];
      IncompleteAppend(head, Incomplete(tasks[1..]));
      assert Incomplete(head) == head;
    }
  }

  /** The requests the input source delivers before its termination signal (or before it runs dry). */
  function RequestsBeforeExit(inputs: seq<Option<ElevatorRequest>>): seq<ElevatorRequest>
  {
    if inputs == [] || inputs[0].None? then []
    else [inputs[0].value] + RequestsBeforeExit(inputs[1..])
  }

  /**
   * The delivered requests are exactly the inputs in front of the first
   * termination signal, in input order.
   */
  lemma {:induction false} RequestsBeforeExitSpec(inputs: seq<Option<ElevatorRequest>>, n: nat)
    requires n <= |inputs|
    requires forall k :: 0 <= k < n ==> inputs[k].Some?
    requires n == |inputs| || inputs[n].None?
    ensures |RequestsBeforeExit(inputs)| == n
    ensures forall k :: 0 <= k < n ==> RequestsBeforeExit(inputs)[k] == inputs[k].value
  {
    if n > 0 {
      RequestsBeforeExitSpec(inputs[1..], n - 1);
    }
  }

  /**
   * What the chosen car went through while carrying a group: the floors
   * passed on the way to the origin, where boarding took place, whether it
   * succeeded and how many were then aboard, the floors passed on the way to
   * the destination, where the group got off and whether that succeeded.
   */
  datatype Ride = Ride(
    toOrigin: seq<Position>, boardedAt: int, boarded: bool, aboard: int,
    toDestination: seq<Position>, alightedAt: int, alighted: bool)

  /**
   * One request processed against the cars `cars` whose snapshots go from
   * `before` to `after`. A negative passenger count is turned away; otherwise
   * the dispatcher's pick on `before` decides: no car, a car without room
   * (reported with its id and capacity), or a car that travels to the origin,
   * boards the group there, travels to the destination and lets it off there,
   * ending Idle on the destination with its load as before. Only the picked
   * car changes (at every position it is listed), and only when it carries.
   */
  predicate Step(cars: seq<Elevator>, request: ElevatorRequest, outcome: RequestOutcome, ride: Option<Ride>,
                 before: seq<ElevatorState>, after: seq<ElevatorState>)
  {
    && |before| == |cars| && |after| == |cars|
    && if request.Passengers < 0 then outcome == InvalidPassengerCount && ride == None && after == before
       else match Pick(before, request.FromFloor)
         case None => outcome == NoElevatorAvailable && ride == None && after == before
         case Some(i) =>
           var car := before[i];
           if car.currentPassengers + request.Passengers > car.maxCapacity then
             outcome == CapacityExceeded(cars[i].Id, car.maxCapacity) && ride == None && after == before
           else
             && outcome == Completed(cars[i].Id)
             && ride == Some(Ride(
                  Travel(car.currentFloor, request.FromFloor), request.FromFloor, true,
                  car.currentPassengers + request.Passengers,
                  Travel(request.FromFloor, request.ToFloor), request.ToFloor, true))
             && forall k :: 0 <= k < |cars| ==>
                  after[k] == if cars[k] == cars[i]
                              then before[k].(currentFloor := request.ToFloor, currentDirection := Idle)
                              else before[k]
  }

  /** The load and status in each snapshot. */
  function LoadsOf(cars: seq<ElevatorState>): seq<(int, ElevatorStatus)>
  {
    seq(|cars|, k requires 0 <= k < |cars| => (cars[k].currentPassengers, cars[k].status))
  }

  /** A processed request leaves every car's load, capacity and status as they were. */
  lemma StepKeepsLoads(cars: seq<Elevator>, request: ElevatorRequest, outcome: RequestOutcome, ride: Option<Ride>,
                       before: seq<ElevatorState>, after: seq<ElevatorState>)
    requires Step(cars, request, outcome, ride, before, after)
    ensures |after| == |before|
    ensures forall k :: 0 <= k < |after| ==>
      && after[k].currentPassengers == before[k].currentPassengers
      && after[k].maxCapacity == before[k].maxCapacity
      && after[k].status == before[k].status
    ensures LoadsOf(after) == LoadsOf(before)
  {
  }

  /**
   * The outcome, the ride and the new snapshots are determined by the cars,
   * the request and the snapshots before it.
   */
  lemma StepIsDeterministic(cars: seq<Elevator>, request: ElevatorRequest, before: seq<ElevatorState>,
                            outcome1: RequestOutcome, ride1: Option<Ride>, after1: seq<ElevatorState>,
                            outcome2: RequestOutcome, ride2: Option<Ride>, after2: seq<ElevatorState>)
    requires Step(cars, request, outcome1, ride1, before, after1)
    requires Step(cars, request, outcome2, ride2, before, after2)
    ensures outcome1 == outcome2 && ride1 == ride2 && after1 == after2
  {
    if request.Passengers >= 0 && Pick(before, request.FromFloor).Some? {
      assert forall k :: 0 <= k < |cars| ==> after1[k] == after2[k];
    }
  }

  /**
   * A run of the main loop: the `k`-th registered execution is the `k`-th
   * step, taking the cars from `snapshots[k]` to `snapshots[k + 1]`.
   */
  predicate IsRun(cars: seq<Elevator>, tasks: seq<RequestTask>, rides: seq<Option<Ride>>,
                  snapshots: seq<seq<ElevatorState>>)
  {
    && |snapshots| == |tasks| + 1 && |rides| == |tasks|
    && forall k :: 0 <= k < |tasks| ==>
         Step(cars, tasks[k].request, tasks[k].outcome, rides[k], snapshots[k], snapshots[k + 1])
  }

  /** A run followed by one more step is a run. */
  lemma RunExtend(cars: seq<Elevator>, tasks: seq<RequestTask>, rides: seq<Option<Ride>>,
                  snapshots: seq<seq<ElevatorState>>, task: RequestTask, ride: Option<Ride>, next: seq<ElevatorState>)
    requires IsRun(cars, tasks, rides, snapshots)
    requires Step(cars, task.request, task.outcome, ride, snapshots[|tasks|], next)
    ensures IsRun(cars, tasks + [task], rides + [ride], snapshots + [next])
  {
  }

  /** Up to any point of a run, every car keeps the load, capacity and status it started with. */
  lemma {:induction false} RunKeepsLoads(cars: seq<Elevator>, tasks: seq<RequestTask>, rides: seq<Option<Ride>>,
                                         snapshots: seq<seq<ElevatorState>>, n: nat)
    requires IsRun(cars, tasks, rides, snapshots) && n <= |tasks|
    ensures |snapshots[n]| == |snapshots[0]|
    ensures forall k :: 0 <= k < |snapshots[0]| ==>
      && snapshots[n][k].currentPassengers == snapshots[0][k].currentPassengers
      && snapshots[n][k].maxCapacity == snapshots[0][k].maxCapacity
      && snapshots[n][k].status == snapshots[0][k].status
    ensures LoadsOf(snapshots[n]) == LoadsOf(snapshots[0])
  {
    if n > 0 {
      RunKeepsLoads(cars, tasks, rides, snapshots, n - 1);
      StepKeepsLoads(cars, tasks[n - 1].request, tasks[n - 1].outcome, rides[n - 1], snapshots[n - 1], snapshots[n]);
    }
  }

  /**
   * Two runs over the same cars, from the same snapshots, on the same
   * requests, agree up to any point: the same snapshots, rides and outcomes.
   */
  lemma {:induction false} RunIsDetermined(cars: seq<Elevator>,
                                           tasks1: seq<RequestTask>, rides1: seq<Option<Ride>>, snapshots1: seq<seq<ElevatorState>>,
                                           tasks2: seq<RequestTask>, rides2: seq<Option<Ride>>, snapshots2: seq<seq<ElevatorState>>,
                                           n: nat)
    requires IsRun(cars, tasks1, rides1, snapshots1) && IsRun(cars, tasks2, rides2, snapshots2)
    requires n <= |tasks1| && n <= |tasks2| && snapshots1[0] == snapshots2[0]
    requires forall k :: 0 <= k < n ==> tasks1[k].request == tasks2[k].request
    ensures forall k :: 0 <= k <= n ==> snapshots1[k] == snapshots2[k]
    ensures forall k :: 0 <= k < n ==> rides1[k] == rides2[k] && tasks1[k].outcome == tasks2[k].outcome
  {
    if n > 0 {
      RunIsDetermined(cars, tasks1, rides1, snapshots1, tasks2, rides2, snapshots2, n - 1);
      StepIsDeterministic(cars, tasks1[n - 1].request, snapshots1[n - 1],
        tasks1[n - 1].outcome, rides1[n - 1], snapshots1[n], tasks2[n - 1].outcome, rides2[n - 1], snapshots2[n]);
    }
  }

  class ElevatorController {
    const building: Building
    var activeRequests: seq<RequestTask>

    /** Every car of the building keeps its load within its capacity. */
    predicate Valid()
      reads building.elevators
    {
      forall e :: e in building.elevators ==> e.Valid()
    }

    /** Snapshot of every car, in building order. */
    function Cars(): seq<ElevatorState>
      reads building.elevators
    {
      States(building.elevators)
    }

    constructor (building: Building)
      ensures this.building == building && activeRequests == []
    {
      this.building := building;
      activeRequests := [];
    }

    /** Register an execution at the end of the list. */
    method AddActiveRequest(task: RequestTask)
      modifies this`activeRequests
      ensures activeRequests == old(activeRequests) + [task]
    {
      activeRequests := activeRequests + [task];
    }

    /** Drop the completed executions, keeping the others in order. */
    method CleanupCompletedRequests()
      modifies this`activeRequests
      ensures activeRequests == Incomplete(old(activeRequests))
    {
      var tasks := activeRequests;
      var kept := [];
      var k := 0;
      while k < |tasks|
        invariant 0 <= k <= |tasks|
        invariant kept == Incomplete(tasks[..k])
      {
        IncompleteAppend(tasks[..k], [tasks[k]]);
        assert tasks[..k + 1] == tasks[..k] + [tasks[k]];
        if !tasks[k].IsCompleted {
          kept := kept + [tasks[k]];
        }
        k := k + 1;
      }
      assert tasks[..k] == tasks;
      activeRequests := kept;
    }

    /**
     * Carry one request: pick the nearest available car for the origin floor,
     * stop if there is none or it cannot take the group, otherwise move it to
     * the origin, board, move it to the destination and let the group off.
     * A negative passenger count is turned away before anything happens. The
     * ghost `ride` records what the chosen car went through.
     */
    method ProcessRequest(request: ElevatorRequest) returns (outcome: RequestOutcome, ghost ride: Option<Ride>)
      requires Valid()
      modifies building.elevators
      ensures Valid()
      ensures outcome.InvalidPassengerCount? <==> request.Passengers < 0
      ensures outcome.NoElevatorAvailable? <==>
        request.Passengers >= 0 && old(GetNearestAvailableElevator(building, request.FromFloor)).None?
      ensures outcome.CapacityExceeded? <==>
        && request.Passengers >= 0
        && old(GetNearestAvailableElevator(building, request.FromFloor)).Some?
        && !old(GetNearestAvailableElevator(building, request.FromFloor).value.HasCapacityFor(request.Passengers))
      ensures outcome.CapacityExceeded? ==>
        var e := old(GetNearestAvailableElevator(building, request.FromFloor)).value;
        outcome == CapacityExceeded(e.Id, e.MaxCapacity)
      ensures ride.Some? <==> outcome.Completed?
      ensures !outcome.Completed? ==> forall e :: e in building.elevators ==> e.State() == old(e.State())
      ensures outcome.Completed? ==>
        var e := old(GetNearestAvailableElevator(building, request.FromFloor)).value;
        && outcome.elevatorId == e.Id
        && ride.value == Ride(
             Travel(old(e.CurrentFloor), request.FromFloor), request.FromFloor, true,
             old(e.CurrentPassengers) + request.Passengers,
             Travel(request.FromFloor, request.ToFloor), request.ToFloor, true)
        && e.State() == old(e.State()).(currentFloor := request.ToFloor, currentDirection := Idle)
        && forall other :: other in building.elevators && other != e ==> other.State() == old(other.State())
      ensures forall e :: e in building.elevators ==>
        && e.CurrentPassengers == old(e.CurrentPassengers) && e.Status == old(e.Status)
        && (e.CurrentDirection == old(e.CurrentDirection) || e.CurrentDirection == Idle)
      ensures Step(building.elevators, request, outcome, ride, old(Cars()), Cars())
    {
      var es := building.elevators;
      ghost var before := Cars();
      if request.Passengers < 0 {
        TurnedAwayIsStep(es, request, before);
        return InvalidPassengerCount, None;
      }
      var pick := GetNearestAvailableElevator(building, request.FromFloor);
      NearestIsPick(building, request.FromFloor);
      if pick.None? {
        NoCarIsStep(es, request, before);
        return NoElevatorAvailable, None;
      }
      var elevator := pick.value;
      ghost var i := Pick(before, request.FromFloor).value;
      assert es[i] == elevator;
      if !elevator.HasCapacityFor(request.Passengers) {
        NoRoomIsStep(es, request, before, i);
        return CapacityExceeded(elevator.Id, elevator.MaxCapacity), None;
      }
      ghost var carried := Carry(request, elevator, i);
      return Completed(elevator.Id), Some(carried);
    }

    /**
     * The carrying part of a request, for the picked car `elevator`, listed
     * at position `i`, which has room: move to the origin, board, move to the
     * destination, let the group off. The car ends Idle on the destination
     * with its load as before; the ghost result records the ride.
     */
    method Carry(request: ElevatorRequest, elevator: Elevator, ghost i: nat) returns (ghost ride: Ride)
      requires Valid() && request.Passengers >= 0
      requires i < |building.elevators| && building.elevators[i] == elevator
      requires Pick(Cars(), request.FromFloor) == Some(i) && elevator.HasCapacityFor(request.Passengers)
      modifies elevator
      ensures Valid()
      ensures ride == Ride(
        Travel(old(elevator.CurrentFloor), request.FromFloor), request.FromFloor, true,
        old(elevator.CurrentPassengers) + request.Passengers,
        Travel(request.FromFloor, request.ToFloor), request.ToFloor, true)
      ensures elevator.State() == old(elevator.State()).(currentFloor := request.ToFloor, currentDirection := Idle)
      ensures Step(building.elevators, request, Completed(elevator.Id), Some(ride), old(Cars()), Cars())
    {
      var es := building.elevators;
      ghost var before := Cars();
      ghost var car := before[i];
      assert car == elevator.State() && car.currentPassengers + request.Passengers <= car.maxCapacity;
      assert elevator in es;
      ride := Ferry(request, elevator);
      assert ride == Ride(
        Travel(car.currentFloor, request.FromFloor), request.FromFloor, true,
        car.currentPassengers + request.Passengers,
        Travel(request.FromFloor, request.ToFloor), request.ToFloor, true);
      ghost var after := Cars();
      forall k | 0 <= k < |es|
        ensures after[k] == if es[k] == es[i]
          then before[k].(currentFloor := request.ToFloor, currentDirection := Idle) else before[k]
      {
        assert after[k] == es[k].State() && before[k] == old(es[k].State());
      }
      CarriedIsStep(es, request, Some(ride), before, after, i);
      forall e | e in es ensures e.Valid() {
        assert e == elevator || old(e.Valid());
      }
    }

    /** Register an execution and prune the completed ones, the new one included. */
    method Register(task: RequestTask)
      modifies this`activeRequests
      ensures activeRequests == Incomplete(old(activeRequests) + [task])
    {
      AddActiveRequest(task);
      CleanupCompletedRequests();
    }

    /**
     * One pass of the main loop: process the request, register its execution
     * and prune the completed registrations, the new one included. The cars
     * go from their snapshots before to their snapshots after by one `Step`,
     * so each keeps its load and status (`StepKeepsLoads`).
     */
    method HandleRequest(request: ElevatorRequest) returns (task: RequestTask, ghost ride: Option<Ride>)
      requires Valid()
      modifies this`activeRequests, building.elevators
      ensures Valid()
      ensures task.request == request && task.IsCompleted
      ensures Step(building.elevators, request, task.outcome, ride, old(Cars()), Cars())
      ensures activeRequests == Incomplete(old(activeRequests))
    {
      var outcome;
      outcome, ride := ProcessRequest(request);
      ghost var after := Cars();
      task := RequestTask(request, outcome, true);
      Register(task);
      assert Cars() == after;
      IncompleteAppend(old(activeRequests), [task]);
    }

    /**
     * One pass of the main loop, on the record of the run so far, which ends
     * on the cars as they are: the run extended by this pass is a run.
     */
    method Serve(request: ElevatorRequest, ghost tasks: seq<RequestTask>, ghost rides: seq<Option<Ride>>,
                 ghost snapshots: seq<seq<ElevatorState>>) returns (task: RequestTask, ghost ride: Option<Ride>)
      requires Valid() && IsRun(building.elevators, tasks, rides, snapshots) && snapshots[|tasks|] == Cars()
      modifies this`activeRequests, building.elevators
      ensures Valid()
      ensures task.request == request && task.IsCompleted
      ensures IsRun(building.elevators, tasks + [task], rides + [ride], snapshots + [Cars()])
      ensures activeRequests == Incomplete(old(activeRequests))
    {
      task, ride := HandleRequest(request);
      RunExtend(building.elevators, tasks, rides, snapshots, task, ride, Cars());
    }

    /**
     * The main loop: take requests from the input source until its termination
     * signal, process each one, register it and prune the completed
     * registrations. Processing is sequential, so every registered execution
     * has completed and waiting for them at the end has nothing to wait for.
     * The ghost `rides` and `snapshots` record the run: the `k`-th request is
     * processed by one `Step` from `snapshots[k]` to `snapshots[k + 1]`.
     */
    method Start(inputs: seq<Option<ElevatorRequest>>)
      returns (handled: seq<RequestTask>, ghost rides: seq<Option<Ride>>, ghost snapshots: seq<seq<ElevatorState>>)
      requires Valid()
      modifies this`activeRequests, building.elevators
      ensures Valid()
      ensures |handled| == |RequestsBeforeExit(inputs)|
      ensures forall k :: 0 <= k < |handled| ==>
        handled[k].request == RequestsBeforeExit(inputs)[k] && handled[k].IsCompleted
      ensures IsRun(building.elevators, handled, rides, snapshots)
      ensures snapshots[0] == old(Cars()) && snapshots[|handled|] == Cars()
      ensures activeRequests == if handled == [] then old(activeRequests) else Incomplete(old(activeRequests))
      ensures LoadsOf(Cars()) == LoadsOf(old(Cars()))
    {
      ghost var initial, pending := Cars(), activeRequests;
      handled, rides, snapshots := [], [], [initial];
      var i := 0;
      var cancelled := false;
      while !cancelled && i < |inputs|
        invariant 0 <= i <= |inputs|
        invariant cancelled ==> i < |inputs| && inputs[i].None?
        invariant Valid()
        invariant |handled| == i
        invariant forall k :: 0 <= k < i ==>
          inputs[k].Some? && handled[k].request == inputs[k].value && handled[k].IsCompleted
        invariant IsRun(building.elevators, handled, rides, snapshots)
        invariant snapshots[0] == initial && snapshots[i] == Cars()
        invariant activeRequests == if i == 0 then pending else Incomplete(pending)
        decreases |inputs| - i, if cancelled then 0 else 1
      {
        var request := inputs[i];
        if request.None? {
          cancelled := true;
        } else {
          var task, ride := Serve(request.value, handled, rides, snapshots);
          IncompleteIdempotent(pending);
          handled, rides, snapshots := handled + [task], rides + [ride], snapshots + [Cars()];
          i := i + 1;
        }
      }
      RequestsBeforeExitSpec(inputs, i);
      RunKeepsLoads(building.elevators, handled, rides, snapshots, i);
    }
  }

  /**
   * The try block of a request, for a car with room: move to the origin,
   * board, move to the destination, let the group off. The car ends Idle on
   * the destination with its load as before; the ghost result records the
   * ride.
   */
  method Ferry(request: ElevatorRequest, elevator: Elevator) returns (ghost ride: Ride)
    requires elevator.Valid() && request.Passengers >= 0 && elevator.HasCapacityFor(request.Passengers)
    modifies elevator
    ensures elevator.Valid()
    ensures ride == Ride(
    Travel(old(elevator.CurrentFloor), request.FromFloor), request.FromFloor, true,
    old(elevator.CurrentPassengers) + request.Passengers,
    Travel(request.FromFloor, request.ToFloor), request.ToFloor, true)
    ensures elevator.State() == old(elevator.State()).(currentFloor := request.ToFloor, currentDirection := Idle)
  {
    ghost var toOrigin := elevator.MoveToFloor(request.FromFloor);
    ghost var boardedAt := elevator.CurrentFloor;
    var boarded := elevator.AddPassengers(request.Passengers);
    ghost var aboard := elevator.CurrentPassengers;
    ghost var toDestination := elevator.MoveToFloor(request.ToFloor);
    ghost var alightedAt := elevator.CurrentFloor;
    var alighted := elevator.RemovePassengers(request.Passengers);
    ride := Ride(toOrigin, boardedAt, boarded, aboard, toDestination, alightedAt, alighted);
  }

  /** A request with a negative passenger count, turned away, is a `Step` that changes no car. */
  lemma TurnedAwayIsStep(cars: seq<Elevator>, request: ElevatorRequest, before: seq<ElevatorState>)
    requires |before| == |cars| && request.Passengers < 0
    ensures Step(cars, request, InvalidPassengerCount, None, before, before)
  {
  }

  /** A request for which no car is available is a `Step` that changes no car. */
  lemma NoCarIsStep(cars: seq<Elevator>, request: ElevatorRequest, before: seq<ElevatorState>)
    requires |before| == |cars| && request.Passengers >= 0 && Pick(before, request.FromFloor).None?
    ensures Step(cars, request, NoElevatorAvailable, None, before, before)
  {
  }

  /** A request whose picked car lacks room is a `Step` that reports that car and changes none. */
  lemma NoRoomIsStep(cars: seq<Elevator>, request: ElevatorRequest, before: seq<ElevatorState>, i: nat)
    requires |before| == |cars| && request.Passengers >= 0 && Pick(before, request.FromFloor) == Some(i)
    requires before[i].currentPassengers + request.Passengers > before[i].maxCapacity
    ensures Step(cars, request, CapacityExceeded(cars[i].Id, before[i].maxCapacity), None, before, before)
  {
  }

  /** A carried request, described on snapshots, is a `Step`. */
  lemma CarriedIsStep(cars: seq<Elevator>, request: ElevatorRequest, ride: Option<Ride>,
                      before: seq<ElevatorState>, after: seq<ElevatorState>, i: nat)
    requires |before| == |cars| && |after| == |cars|
    requires request.Passengers >= 0 && Pick(before, request.FromFloor) == Some(i)
    requires before[i].currentPassengers + request.Passengers <= before[i].maxCapacity
    requires ride == Some(Ride(
      Travel(before[i].currentFloor, request.FromFloor), request.FromFloor, true,
      before[i].currentPassengers + request.Passengers,
      Travel(request.FromFloor, request.ToFloor), request.ToFloor, true))
    requires forall k :: 0 <= k < |cars| ==>
      after[k] == if cars[k] == cars[i]
        then before[k].(currentFloor := request.ToFloor, currentDirection := Idle) else before[k]
    ensures Step(cars, request, Completed(cars[i].Id), ride, before, after)
  {
  }

  /** A 20-floor building with two standard cars, the first on floor 1 and the second on floor 10. */
  method TwoCarBuilding() returns (controller: ElevatorController, e1: Elevator, e2: Elevator)
    ensures fresh(controller) && fresh(e1) && fresh(e2) && e1 != e2
    ensures controller.building == Building(20, [e1, e2]) && controller.Valid()
    ensures e1.State() == ElevatorState(1, Idle, 0, 10, Available, ElevatorType.Standard) && e1.Id == 1
    ensures e2.State() == ElevatorState(10, Idle, 0, 10, Available, ElevatorType.Standard) && e2.Id == 2
  {
    e1 := new Elevator.StandardElevator(1);
    e2 := new Elevator.StandardElevator(2);
    e2.CurrentFloor := 10;
    controller := new ElevatorController(Building(20, [e1, e2]));
  }

  /**
   * In that building, a call from floor 3 to floor 7 for 4 people goes to the
   * nearer car, which ends on floor 7, Idle and empty; the other stays put.
   */
  method CarryScenario() returns (outcome: RequestOutcome, floor: int, load: int, otherFloor: int)
    ensures outcome == Completed(1) && floor == 7 && load == 0 && otherFloor == 10
  {
    var controller, e1, e2 := TwoCarBuilding();
    assert e1 in controller.building.elevators && e2 in controller.building.elevators;
    assert Qualifies(e1, 3) && Distance(e1, 3) == 2 && Distance(e2, 3) == 7;
    label before:
    ghost var ride;
    outcome, ride := controller.ProcessRequest(ElevatorRequest(3, 7, 4));
    assert old@before(GetNearestAvailableElevator(controller.building, 3)) == Some(e1);
    floor, load, otherFloor := e1.CurrentFloor, e1.CurrentPassengers, e2.CurrentFloor;
  }
}
