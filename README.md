# Elevator simulation: a verified Dafny model

This project models the decision logic of a console elevator simulation and proves properties about it. The simulation has a building with a fixed, ordered list of elevator cars. Each car has a floor, a direction, a passenger load and a status. Users type commands of the form `call <from> <to> <passengers>`, or `exit`. For each request, the controller:

1. asks the dispatcher for the nearest available car;
2. turns the group away if that car lacks room;
3. otherwise moves the car one floor at a time to the origin, boards the group, moves the car to the destination and lets the group off.

Requests run one after another here. In the original they run in overlapping tasks.

Modules and the source files they cover (paths under `ElevatorSimulation/`):

- `Types` (`types.dfy`) covers `Enums.cs`, `ElevatorRequest.cs` and `IElevatorInterfaces.cs`. It holds the enums, the request record and `ElevatorState`, a snapshot of what `IElevatorState` exposes. The capability interfaces are not modelled as traits: their members are members of the `Elevator` class, and the read-only view is the snapshot.
- `Elevators` (`elevator.dfy`) covers `BaseElevator.cs` and `StandardElevator.cs`. The `Elevator` class stands for `BaseElevator`. Its named constructor `StandardElevator` fixes capacity 10 and type Standard. The class invariant is `0 <= CurrentPassengers <= MaxCapacity`. `MoveToFloor` is the stepping loop, proved against the reference trajectory `Travel`.
- `Buildings` (`building.dfy`) covers `Building.cs`: an immutable value holding the floor count and a copy of the car list.
- `Dispatch` (`dispatcher.dfy`) covers `ElevatorDispatcher.cs`. The query is written as the pipeline filter → stable insertion sort → first-or-nothing over car positions. It is proved equal to the independent description `IsNearest`: the nearest qualifying car, with ties going to the car listed first. `Pick` is the same choice on car snapshots.
- `ConsoleInput` (`console_input.dfy`) covers `ConsoleInput.cs`. It provides `Split` and `Join` on single spaces, proved to be inverses. `Classify` maps a line to Skip / Exit / Call / InvalidFloor / InvalidFormat. The retry loop `GetNextRequest` works over a sequence of input lines.
- `Controller` (`controller.dfy`) covers `ElevatorController.cs`. It contains:
  - `ProcessRequest`, with its carrying part `Carry` / `Ferry`;
  - the main loop `Start`, over a sequence of optional requests, where `None` is the termination signal;
  - the list of registered request executions, with `AddActiveRequest` and `CleanupCompletedRequests`;
  - `Step`, which says what one processed request does to the snapshots of all cars, and `IsRun`, which chains steps over a whole run.
- `Findings` (`findings.dfy`) covers no source file of its own. It models two passenger-count defects as written, with counterexamples (see "## Findings").

## Model

| member | source | states |
|---|---|---|
| Elevators.Elevator.constructor | ElevatorSimulation/BaseElevator.cs:17-25 | A new car keeps its id, capacity and type, and waits on floor 1, Idle, Available, with 0 passengers. It satisfies the load invariant exactly when its capacity is non-negative. |
| Elevators.Elevator.StandardElevator | ElevatorSimulation/StandardElevator.cs:17 | A standard car has the given id, capacity 10 and type Standard. It starts in the initial state above and satisfies the load invariant. |
| Elevators.Elevator.MoveToFloor | ElevatorSimulation/BaseElevator.cs:27-41 | The floors visited, step by step, are exactly the reference trajectory `Travel(start, target)`. The car ends on the target, Idle. Load and status are unchanged. |
| Elevators.TravelClosedForm | ElevatorSimulation/BaseElevator.cs:32-38 | A move takes `\|target - start\|` steps, and step k lands k+1 floors from the start in the direction of the target. |
| Elevators.TravelIsMonotone | ElevatorSimulation/BaseElevator.cs:32-38 | Each step brings the car exactly one floor closer to the target. Floors stay between start and target, the heading is Up iff target > start, and the last step lands on the target. |
| Elevators.TravelToSelfIsEmpty | ElevatorSimulation/BaseElevator.cs:34 | Moving to the current floor takes no step. |
| Elevators.Elevator.AddPassengers | ElevatorSimulation/BaseElevator.cs:50-63 | Succeeds iff the load plus the group fits the capacity. On success the load grows by the group. On failure nothing changes. The load invariant is kept. |
| Elevators.Elevator.RemovePassengers | ElevatorSimulation/BaseElevator.cs:65-78 | Succeeds iff at least that many are aboard. On success the load drops by the group. On failure nothing changes. The load invariant is kept. |
| Elevators.Elevator.SetStatus | ElevatorSimulation/BaseElevator.cs:83-86 | Only the status changes. |
| Elevators.Elevator.CanMoveTo | ElevatorSimulation/BaseElevator.cs:48 | An Available car accepts a move. An out-of-service car or a car under maintenance refuses it. |
| Elevators.Elevator.HasCapacityFor | ElevatorSimulation/BaseElevator.cs:80-81 | When it holds for a non-negative group, boarding that group keeps the load between 0 and the capacity. A full car has no room for a positive group. |
| Elevators.CanMoveToIgnoresFloor | ElevatorSimulation/BaseElevator.cs:48 | Whether a car accepts a move is its status being Available, whatever the floor. |
| Elevators.BoardThenAlight | ElevatorSimulation/BaseElevator.cs:50-81 | Boarding succeeds iff `HasCapacityFor` held. If boarding succeeds, letting the same group off succeeds too. Either way the car ends exactly as it was. |
| Elevators.MoveUpScenario | ElevatorSimulation.Tests/UnitTests.cs:14-25 | A fresh car moved to floor 5 is on 5, Idle. |
| Elevators.MoveDownScenario | ElevatorSimulation.Tests/UnitTests.cs:28-39 | A car on floor 10 moved to floor 5 is on 5, Idle. |
| Elevators.BoardingScenarios | ElevatorSimulation.Tests/UnitTests.cs:42-67 | Boarding 5 into a standard car succeeds with load 5. Boarding 15 fails and leaves 0. |
| Elevators.AlightingScenarios | ElevatorSimulation.Tests/UnitTests.cs:70-97 | With 5 aboard, letting 3 off leaves 2. Asking 10 off fails and leaves 5. |
| Buildings.NewBuilding | ElevatorSimulation/Building.cs:18-22 | The building keeps the floor count and lists the cars in the order given. |
| Buildings.CallerEditsDoNotReachBuilding | ElevatorSimulation/Building.cs:21 | The list is copied: overwriting the caller's list afterwards does not change the building's cars. |
| Buildings.Building.GetAllElevators | ElevatorSimulation/Building.cs:24 | The cars are the building's own list, in construction order and of the same length. |
| Buildings.Building.IsValidFloor | ElevatorSimulation/Building.cs:25 | A valid floor lies in 1..NumberOfFloors. Floors below 1 are never valid, and a building with fewer than one floor has no valid floor. Floors 1 and NumberOfFloors are valid when the building has a floor. |
| Buildings.TwentyFloorBuilding | ElevatorSimulation.Tests/UnitTests.cs:103-128 | With 20 floors, floor 10 is valid and floor 25 is not. |
| Dispatch.Where | ElevatorSimulation/ElevatorDispatcher.cs:24 | The filter keeps exactly the qualifying positions, each once, in building order. |
| Dispatch.WhereInRange | ElevatorSimulation/ElevatorDispatcher.cs:24 | Every kept position is a position of the building's list. |
| Dispatch.Insert | ElevatorSimulation/ElevatorDispatcher.cs:25 | Insertion adds one entry. The new entry comes first exactly when the list is empty or its key is at most the first entry's key, so it goes in front of entries with an equal key (later input entries). |
| Dispatch.InsertPermutes | ElevatorSimulation/ElevatorDispatcher.cs:25 | Insertion yields the list with exactly one more occurrence of the new entry. |
| Dispatch.InsertSorted | ElevatorSimulation/ElevatorDispatcher.cs:25 | Inserting into a key-sorted list keeps it key-sorted. |
| Dispatch.OrderBy | ElevatorSimulation/ElevatorDispatcher.cs:25 | Ordering keeps the number of entries and yields only positions of the building's list. |
| Dispatch.OrderByPermutes | ElevatorSimulation/ElevatorDispatcher.cs:25 | Ordering by distance is a permutation of its input. |
| Dispatch.OrderBySorted | ElevatorSimulation/ElevatorDispatcher.cs:25 | Ordering by distance yields a list sorted by distance. |
| Dispatch.HeadStep | ElevatorSimulation/ElevatorDispatcher.cs:25-26 | For a list whose head precedes all of its tail, the stable minimum is the head exactly when the head's key is at most the tail's stable minimum's. Otherwise it stays the tail's. |
| Dispatch.OrderByHead | ElevatorSimulation/ElevatorDispatcher.cs:25-26 | Stability: the first entry of the ordered list has the least key, and any entry with the same key comes later in building order. |
| Dispatch.FirstOrDefault | ElevatorSimulation/ElevatorDispatcher.cs:26 | Nothing iff the list is empty. Otherwise the first entry. |
| Dispatch.NearestIsUnique | ElevatorSimulation/ElevatorDispatcher.cs:25-26 | The nearest-with-earliest-tie position is unique. |
| Dispatch.PipelinePicksNearest | ElevatorSimulation/ElevatorDispatcher.cs:23-26 | Filter, stable order and first together find nothing iff nothing qualifies. Otherwise they find the nearest qualifying position, ties going to the earliest. |
| Dispatch.SelectIndex | ElevatorSimulation/ElevatorDispatcher.cs:23-26 | Same as above, for the composed selection. |
| Dispatch.GetNearestAvailableElevator | ElevatorSimulation/ElevatorDispatcher.cs:21-27 | Returns nothing iff no car is Available and accepts the move. Otherwise returns one of the building's cars that is Available and accepts the move, at minimal distance, with every qualifying car listed before it strictly farther. It changes no car. |
| Dispatch.NoneQualifies | ElevatorSimulation/ElevatorDispatcher.cs:23-26 | When the pipeline over the cars selects nothing, no car qualifies. |
| Dispatch.SelectedIsNearest | ElevatorSimulation/ElevatorDispatcher.cs:23-26 | The car at the selected position qualifies. It is no farther than any qualifying car and strictly nearer than every qualifying car listed before it. |
| Dispatch.SelectPicksNearestCar | ElevatorSimulation/ElevatorDispatcher.cs:23-26 | On car snapshots, the pipeline selects nothing iff no car is Available. Otherwise it selects the nearest Available car, ties going to the earliest. |
| Dispatch.Pick | ElevatorSimulation/ElevatorDispatcher.cs:21-27 | The dispatcher's choice on snapshots. Nothing iff no car is Available. Otherwise the position of the nearest Available car, and every Available car listed before it is strictly farther. |
| Dispatch.NearestIsPick | ElevatorSimulation/ElevatorDispatcher.cs:21-27 | The query on live cars finds nothing iff `Pick` on their snapshots finds nothing. Otherwise it returns the car at the position `Pick` chooses. |
| Dispatch.NearestCarScenario | ElevatorSimulation.Tests/UnitTests.cs:134-156 | With available cars on floors 5 and 10, a call at floor 7 picks the car on floor 5. |
| Dispatch.OutOfServiceScenario | ElevatorSimulation.Tests/UnitTests.cs:159-174 | When the only car is out of service, nothing is picked. |
| Dispatch.NoCarScenario | ElevatorSimulation/ElevatorDispatcher.cs:23-26 | A building without cars yields nothing. |
| ConsoleInput.Split | ElevatorSimulation/ConsoleInput.cs:51 | Splitting always yields at least one piece. |
| ConsoleInput.JoinSplit | ElevatorSimulation/ConsoleInput.cs:51 | Joining the pieces with the separator gives back the line. |
| ConsoleInput.SplitJoin | ElevatorSimulation/ConsoleInput.cs:51 | Splitting a join of separator-free pieces gives back those pieces. |
| ConsoleInput.SplitPiecesHaveNoSeparator | ElevatorSimulation/ConsoleInput.cs:51 | No piece contains a space. |
| ConsoleInput.SplitPrefix | ElevatorSimulation/ConsoleInput.cs:51 | A separator-free prefix merges into the first piece of the rest. |
| ConsoleInput.DoubleSeparatorGivesEmptyPiece | ElevatorSimulation/ConsoleInput.cs:51 | Two spaces in a row produce an empty piece after the first. |
| ConsoleInput.IsNullOrWhiteSpace | ElevatorSimulation/ConsoleInput.cs:49 | The empty line is blank. |
| ConsoleInput.BlankIsAllWhiteSpace | ElevatorSimulation/ConsoleInput.cs:49 | A line is blank iff every character is whitespace, so one non-whitespace character anywhere makes it not blank. |
| ConsoleInput.Classify | ElevatorSimulation/ConsoleInput.cs:49-83 | Skip iff the line is blank. Exit iff the first token lower-cases to "exit". A request or an invalid-floor result needs "call", exactly four tokens and three parsed integers. A request carries exactly those integers and both of its floors are valid. An invalid-floor result has a floor outside the building. |
| ConsoleInput.JoinStartsWithFirst | ElevatorSimulation/ConsoleInput.cs:49-51 | A line whose first token is not blank is not blank. |
| ConsoleInput.ExitWhateverFollows | ElevatorSimulation/ConsoleInput.cs:51-53 | An "exit" first token stops, whatever follows it. |
| ConsoleInput.WellFormedCall | ElevatorSimulation/ConsoleInput.cs:55-73 | "call" with three parsed integers is a request carrying them when both floors exist, and an invalid-floor result otherwise. The passenger count is not checked. |
| ConsoleInput.ConsecutiveSpacesRejected | ElevatorSimulation/ConsoleInput.cs:51-59 | A line with two spaces in a row is never a request. |
| ConsoleInput.NoneEndsMeans | ElevatorSimulation/ConsoleInput.cs:33-85 | The lines the retry loop has read past are exactly lines that are neither an exit nor a request. |
| ConsoleInput.GetNextRequest | ElevatorSimulation/ConsoleInput.cs:33-85 | Reads lines until one is an exit or a request. It returns that result and the position after it, and every line read before it was blank or rejected. The messages printed are exactly those of the invalid-floor and format-error lines read. |
| Controller.IncompleteAppend | ElevatorSimulation/ElevatorController.cs:105 | Removing completed executions commutes with concatenation, so relative order is kept. |
| Controller.IncompleteSpec | ElevatorSimulation/ElevatorController.cs:105 | After removal no completed execution remains, every incomplete one is kept, and nothing new appears. |
| Controller.IncompleteIdempotent | ElevatorSimulation/ElevatorController.cs:105 | Removing twice is removing once. |
| Controller.RequestsBeforeExitSpec | ElevatorSimulation/ElevatorController.cs:55-65 | The requests taken are exactly the inputs before the first termination signal, in order. |
| Controller.StepKeepsLoads | ElevatorSimulation/ElevatorController.cs:118-153 | A processed request leaves every car with the load, capacity and status it had. |
| Controller.StepIsDeterministic | ElevatorSimulation/ElevatorController.cs:118-153 | The outcome, the ride and the new car snapshots are determined by the cars, the request and the snapshots before it. |
| Controller.TurnedAwayIsStep | ElevatorSimulation/ElevatorController.cs:118-153 | A negative passenger count is turned away and changes no car. |
| Controller.NoCarIsStep | ElevatorSimulation/ElevatorController.cs:121-127 | When no car is picked, the outcome is "no elevator available" and no car changes. |
| Controller.NoRoomIsStep | ElevatorSimulation/ElevatorController.cs:129-135 | When the picked car lacks room, its id and capacity are reported and no car changes. |
| Controller.CarriedIsStep | ElevatorSimulation/ElevatorController.cs:137-147 | The picked car with room travels to the origin, boards, travels to the destination and lets the group off. Only that car changes: it ends Idle on the destination. |
| Controller.RunExtend | ElevatorSimulation/ElevatorController.cs:55-73 | A run followed by one more step is a run. |
| Controller.RunKeepsLoads | ElevatorSimulation/ElevatorController.cs:55-73 | At every point of a run, every car has the load, capacity and status it started with. |
| Controller.RunIsDetermined | ElevatorSimulation/ElevatorController.cs:55-73 | Two runs from the same snapshots on the same requests agree at every point: the same snapshots, rides and outcomes. |
| Controller.ElevatorController.constructor | ElevatorSimulation/ElevatorController.cs:31-44 | A new controller has the building and an empty execution list. |
| Controller.ElevatorController.AddActiveRequest | ElevatorSimulation/ElevatorController.cs:83-94 | Appends exactly the new execution at the end. |
| Controller.ElevatorController.CleanupCompletedRequests | ElevatorSimulation/ElevatorController.cs:99-111 | The list becomes its incomplete executions, in their original order. |
| Controller.ElevatorController.Register | ElevatorSimulation/ElevatorController.cs:69-72 | The list becomes the incomplete executions of the old list with the new execution appended. |
| Controller.Ferry | ElevatorSimulation/ElevatorController.cs:137-147 | For a car with room: the car passes exactly the floors of `Travel` to the origin and then to the destination. Boarding and alighting succeed. The load aboard is the old load plus the group. The car ends Idle on the destination with its old load. |
| Controller.ElevatorController.Carry | ElevatorSimulation/ElevatorController.cs:137-147 | The same ride for the picked car, which has room. Every car keeps the load invariant, and the car snapshots move by one `Step` with outcome Completed. |
| Controller.ElevatorController.ProcessRequest | ElevatorSimulation/ElevatorController.cs:118-153 | No car available: no car changes. The chosen car lacks room: its id and capacity are reported and no car changes. Otherwise only the chosen car changes. It passes exactly the floors of `Travel` to the origin, boards the group there, passes exactly the floors of `Travel` to the destination and lets the group off there. Both boarding and alighting succeed. While riding it holds its old load plus the group, and it ends Idle on the destination with its old load. The car snapshots move by one `Step`. Every car keeps the load invariant. |
| Controller.ElevatorController.HandleRequest | ElevatorSimulation/ElevatorController.cs:67-72 | One pass of the main loop. The request is processed: the car snapshots move by one `Step` with the outcome recorded in the execution. The execution is registered and completed, and the list becomes the old list's incomplete executions. |
| Controller.ElevatorController.Serve | ElevatorSimulation/ElevatorController.cs:67-72 | The same pass, recorded: a run that ends on the current cars, extended by this pass, is a run. |
| Controller.ElevatorController.Start | ElevatorSimulation/ElevatorController.cs:50-77 | Processes and registers exactly the requests before the first termination signal, in order. Each is completed. When at least one request was handled, the list is the original list's incomplete executions. When the first input is the termination signal, the loop leaves before pruning and the list is unchanged. The returned snapshots form a run: the k-th request is one `Step` from the k-th snapshot to the next, starting from the cars as they were and ending on the cars as they are. Loads and statuses of all cars are unchanged. |
| Controller.CarryScenario | ElevatorSimulation/ElevatorController.cs:121-146 | Two cars on floors 1 and 10, a call from 3 to 7 for 4 people: car 1 carries them and ends on 7, empty; car 2 stays on 10. |
| Findings.Wrap32 | ElevatorSimulation/BaseElevator.cs:81 | 32-bit two's-complement wrap: the result is in range, congruent to the input, and the identity within range. |
| Findings.HasCapacityForAsWritten | ElevatorSimulation/BaseElevator.cs:80-81 | The room check in 32-bit arithmetic. Without overflow it holds iff the group fits. |
| Findings.AddPassengersAsWritten | ElevatorSimulation/BaseElevator.cs:50-63 | Boarding in 32-bit arithmetic. On failure the load is unchanged, and on success it is at most the capacity. Without overflow it succeeds iff the group fits, and then adds exactly the group. |
| Findings.RemovePassengersAsWritten | ElevatorSimulation/BaseElevator.cs:65-78 | Alighting in 32-bit arithmetic. On failure the load is unchanged, and asking more than are aboard fails. A non-negative group that is aboard leaves exactly the difference. A negative group within range is accepted and raises the load. |
| Findings.WrapAroundBoardsHugeGroup | ElevatorSimulation/BaseElevator.cs:80-81 | With 5 of 10 aboard, a group of 2147483647 passes the check and the load becomes -2147483644. |
| Findings.TripLoadsAsWritten | ElevatorSimulation/ElevatorController.cs:130-146 | The loads after boarding and after alighting, as written. For valid loads and groups without overflow, the group is carried iff it fits, and the car ends with its starting load. |
| Findings.NegativeGroupAccepted | ElevatorSimulation/ConsoleInput.cs:57-73 | "call 1 5 -3" is accepted as a request for -3 people. An empty car carrying it holds -3 between the floors. |

## Left out

- Concurrency: the per-car semaphores, the controller's semaphore, async/await, the cancellation token and the fire-and-forget request tasks are not modelled. Requests are processed one at a time. The model therefore does not capture two requests sharing a car, or a car chosen by one request being moved by another before boarding.
- `Task.WhenAll` at the end of `Start` is not modelled as a step: every registered execution has already completed when it is registered.
- The exception handler in `ProcessRequest` is not modelled, because no step of the sequential model can fail.
- Timing: the 3-second delay per floor and the 500 ms display refresh (`UpdateDisplay`) are not modelled. One loop iteration is one floor.
- Console I/O: cursor handling, prompts and the display module are not modelled. `GetNextRequest` reads from a sequence of lines and returns the messages it would print as a list.
- `GetNextRequest`: at the end of the lines it returns `InputExhausted`. The original re-reads an empty line forever once the console is closed.
- `Start` also stops when the sequence of inputs runs out. The original would wait for more input.
- The .NET text helpers (`char.IsWhiteSpace`, `string.ToLower`, `int.TryParse`) are parameters (`TextRuntime`), not re-implemented. Culture, signs and whitespace rules of parsing are outside the model.
- `ElevatorSimulation/Program.cs` (wiring: 4 standard cars, 20 floors) is not part of this model.
- The capability interfaces become the `Elevator` class and the `ElevatorState` snapshot. The unit tests' mocked cars, whose `CanMoveTo` is arbitrary, are replaced by real cars, whose `CanMoveTo` is the status check.
- `ElevatorType` is stored and nothing else; no type-specific behaviour exists.
- Dispatch.GetNearestAvailableElevator: floors and distances are unbounded integers. The original computes `Math.Abs(e.CurrentFloor - floor)` in unchecked 32-bit arithmetic. When a car's floor and the requested floor are 2^31 or more apart, the subtraction wraps, and `Math.Abs(int.MinValue)` throws. `Dispatch.Distance` and `Dispatch.Pick` are unbounded in the same way. The console never sends such a floor, because it checks floors against `IsValidFloor` first.
- Elevators.Elevator.AddPassengers: requires a non-negative count and uses unbounded arithmetic. The original accepts any 32-bit count and wraps (see "## Findings").
- Elevators.Elevator.RemovePassengers: requires a non-negative count. A negative count would add passengers in the original.
- Controller.ElevatorController.ProcessRequest: turns away a negative passenger count with `InvalidPassengerCount`. The original lets it through (see "## Findings").

## Findings

| source | as written | input that shows it | evidently intended | confidence | as-written member | corrected member |
|---|---|---|---|---|---|---|
| ElevatorSimulation/BaseElevator.cs:80-81 | `CurrentPassengers + passengers <= MaxCapacity` and `CurrentPassengers += count` are evaluated in 32-bit signed arithmetic, which wraps without an error | a car of capacity 10 with 5 aboard (from an overlapping request) receives `call 1 5 2147483647`: the sum wraps to -2147483644, the check passes, and the load becomes -2147483644 | a group is boarded only when the true sum fits the capacity, so the load stays within 0..capacity | medium; not executed | Findings.WrapAroundBoardsHugeGroup | Elevators.Elevator.AddPassengers |
| ElevatorSimulation/ConsoleInput.cs:57-73 | the passenger count is parsed and passed on without a range check, and nothing downstream rejects a negative count | the line `call 1 5 -3` on an empty car: the capacity check passes, boarding sets the load to -3, and alighting restores 0 | a negative group is rejected before dispatch, so no car ever holds a negative load | medium; not executed | Findings.NegativeGroupAccepted | Controller.ElevatorController.ProcessRequest |
