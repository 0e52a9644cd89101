# Elevator simulation: a verified model of its sequential core

The program runs a building of `ELEVATORS = 2` elevators and `FLOORS = 12`
floors. Each elevator, each passenger and a clock is a separate thread. This
project models the logic those threads carry out between their blocking waits:

- **Elevator active loop** (module `Elevator`). The value-level step `Tick` is
  the specification. `ElevatorThread` runs the same step in place on the
  shared two-dimensional button array `elevator_buttons`, of which each
  thread owns one row. A step does four things:
  - An idle car scans its buttons from floor 0 upward and heads for the
    lowest pressed one. It goes up if that floor is above it and down
    otherwise, including when the floor is its own. With no button pressed it
    goes back to the ready state.
  - It opens the doors and clears the button when its own floor is requested.
  - It keeps its direction only if a button is pressed ahead of it.
  - It moves by the direction it kept.
- **Dispatcher** `call_elevator` (module `Dispatch`). The first pass picks the
  lowest-indexed locked elevator that goes the requested way and has not
  passed the floor. Failing that, the fallback picks the lowest-indexed locked
  elevator with no direction. The outcome of each `trylock` is an input mask.
  The fallback's retry loop takes one mask per wake-up. The elevators'
  positions and directions are a snapshot.
- **Passenger** `person_thr` and the floor populations (module `Passenger`).
  A trip is rejected when its floors are equal or lie outside the building.
  An accepted trip goes up (+1) or down (-1). It waits until someone is on its
  source floor, takes one person off that floor and, on arrival, adds one to
  its destination floor. Floor 0 starts with nobody and every other floor with
  `PEOPLE_PER_FLOOR = 6`.
- **Clock and shutdown** in `main` (module `Clock`). Each pulse samples the
  number of ready elevators. `inactive_time` counts consecutive pulses on
  which all of them were ready. `terminate` is set once that count reaches
  `ELEVATOR_TIMEOUT = 5`, and the loop then stops, so it is never reset.

Blocking waits split the model into steps. The elevator's extra clock wait
with its doors open (elevator.c:84) releases the lock, so other threads may
press buttons during it. The step is therefore split there: `Doors` and the
method `OpenDoors` run up to that wait, and `Resume` and `ResumeAndMove` run
after it. `Tick(c, pressed)` composes the two parts. Its `pressed` mask holds
the buttons set meanwhile, which may be any floor but the car's own. A
`sem_wait` on an empty floor is the outcome `Blocked`, which changes nothing.

## Model

| member | source | states |
|---|---|---|
| Config.FirstSet | elevator.c:71-76 | the scan from index 0 returns the lowest set index; it returns `None` exactly when no flag is set |
| Config.CountClear | elevator.c:80-85 | clearing one pressed button lowers the number of pressed buttons by exactly one |
| Config.CountBound | elevator.c:32 | a row never has more pressed buttons than floors |
| Config.CountZero | elevator.c:71-77 | a row with no button pressed counts zero |
| Elevator.PendingFromMeans | elevator.c:90-92 | the retention scan finds a button iff one is pressed on the path from the current floor in the direction, the scan starting inside the building |
| Elevator.NextFloorInside | elevator.c:90-95 | when the current floor's button is clear and the scan finds a button, the next floor is inside the building |
| Elevator.ResumePreservesValid | elevator.c:87-95 | after the door-open wait, retention and move keep the floor in [0, FLOORS) and the direction in {-1, 0, 1} |
| Elevator.TickPreservesValid | elevator.c:69-98 | one active-loop step keeps the floor in [0, FLOORS) and the direction in {-1, 0, 1}, whatever other threads press during the door-open wait |
| Elevator.TickNoReversal | elevator.c:87-92 | a moving car ends a step with its old direction or 0, never the opposite one, and never goes back to ready in that step |
| Elevator.TickIdleReady | elevator.c:70-78 | an idle car goes back to ready, unchanged, iff no button is pressed |
| Elevator.TickIdleHeads | elevator.c:70-92 | an idle car heads up or down towards its lowest pressed floor and keeps that direction; when that floor is its own, the scan picks down, the doors open, and the step ends with direction 0 unless a floor below was pressed during the door-open wait |
| Elevator.TickDoorOpen | elevator.c:80-85 | the doors open iff the current floor is requested and that button ends clear; every other button keeps its value or was pressed during the door-open wait; with no new presses the count drops by one per door opening |
| Elevator.TickRetention | elevator.c:87-92 | after the doors, the direction is the working one or 0, and it is nonzero iff a button is pressed on the path from the current floor in that direction, presses during the door-open wait included |
| Elevator.TickMovement | elevator.c:94-95 | the new floor is the old floor plus the new direction, so a car moves at most one floor per step |
| Elevator.RunStaysValid | elevator.c:69-98 | over any number of steps with no new requests the car stays inside the building and its pressed buttons never increase |
| Elevator.PressKeepsHeading | elevator.c:115 | another thread pressing a button keeps the invariant that a moving car has a pressed button ahead |
| Elevator.ReachBound | elevator.c:90-92 | the distance the retention scan keeps a car going is bounded by the floors left in that direction |
| Elevator.TickKeepsHeading | elevator.c:69-98 | a step keeps the invariant that a moving car has a pressed button ahead, whatever other threads press during the door-open wait |
| Elevator.TickDecreases | elevator.c:69-98 | with no new requests and a button pressed, every step strictly lowers the ranking (pressed buttons, then distance still to travel) |
| Elevator.RunServesAll | elevator.c:69-98 | with no new requests, a car in a reachable state clears all its buttons within `Measure` steps |
| Elevator.ServedWithinBound | elevator.c:69-98 | with no new requests, from any start state satisfying `Heading` (a moving car has a pressed button ahead), `(FLOORS + 1)^2` steps suffice to serve every pressed button |
| Elevator.ElevatorThread.constructor | elevator.c:50-61 | a new thread is on floor 0 with direction 0 and its row cleared; other rows unchanged |
| Elevator.ElevatorThread.IdleScan | elevator.c:70-76 | the for/break scan returns the idle car's direction towards the lowest pressed button, or 0 |
| Elevator.ElevatorThread.RetentionScan | elevator.c:88-92 | the for/break scan keeps `d` iff a button is pressed from the current floor onwards in direction `d` |
| Elevator.ElevatorThread.OpenDoors | elevator.c:69-85 | the in-place first part (idle scan, doors, clear) leaves the thread's floor, direction and row equal to `Doors` of the old ones, and no other elevator's row changes |
| Elevator.ElevatorThread.ResumeAndMove | elevator.c:87-97 | after the door-open wait, with the own floor's button clear, the in-place retention scan and move leave the state equal to `Resume` of the old one |
| Dispatch.FallbackMeans | elevator.c:127-142 | the fallback finds an elevator iff some round has a locked elevator with direction 0; it is the lowest such elevator in the first round that has one |
| Dispatch.AssignPrefersRideAlong | elevator.c:108-124 | if a locked elevator is on the way, the request goes to the lowest-indexed one; it has the requested direction and has not passed the floor |
| Dispatch.AssignFallsBack | elevator.c:126-142 | with no ride-along candidate, the choice is exactly the fallback's: a chosen elevator has direction 0 and was locked in some round; none is chosen iff no round had a locked idle elevator |
| Dispatch.CallElevator | elevator.c:106-143 | the loops return `Assign`'s choice and set only that elevator's button for the floor |
| Passenger.PlanTrip | elevator.c:152-159 | a trip is rejected iff its floors are equal, negative or not below FLOORS; an accepted trip's direction is nonzero and positive iff `src < dest` |
| Passenger.PlanTripReachesDestination | elevator.c:159 | following the planned direction for abs(dest - src) floors from `src` reaches `dest` without leaving the building |
| Passenger.TotalUpdate | elevator.c:156-168 | changing one floor's count changes the building's total by the same amount |
| Passenger.TotalConstant | elevator.c:188-190 | floors that each hold `k` people hold `k` times their number in total |
| Passenger.InitialPopulation | elevator.c:186-190 | the building starts with nobody on floor 0, no negative count, and `(FLOORS - 1) * PEOPLE_PER_FLOOR` people in all |
| Passenger.TripConservesTotal | elevator.c:156-168 | a completed trip keeps the building's total and leaves no count negative |
| Passenger.PressDestination | elevator.c:162 | the passenger's destination button is set on its elevator and nothing else changes |
| Passenger.Floors.constructor | elevator.c:186-190 | the counters start as `InitialPeople()` |
| Passenger.Floors.StartTrip | elevator.c:152-159 | a rejected trip or one blocked on an empty source floor changes nothing; otherwise one person leaves `src` and the trip gets `PlanTrip`'s direction |
| Passenger.Floors.Arrive | elevator.c:167-168 | arrival adds one person to `dest` and changes no other floor |
| Clock.IdleStreakMeans | elevator.c:256-259 | `inactive_time` is at least `k` iff the last `k` samples all report every elevator ready |
| Clock.ClockLoop | elevator.c:251-267 | the loop stops at the first pulse whose streak reaches ELEVATOR_TIMEOUT and sets `terminate` there; `terminate` is set iff some prefix reaches the timeout |
| Clock.ShutdownIffIdleRun | elevator.c:256-266 | shutdown happens iff ELEVATOR_TIMEOUT consecutive samples report every elevator ready |

## Left out

- Threads, mutexes, condition variables and semaphores are not modelled as concurrency. Each `trylock` result is an input mask. A `sem_wait` on a floor is the `Blocked` outcome. Buttons other threads press are inputs at the waits: the mask `pressed` at the door-open wait of elevator.c:84, and `PressKeepsHeading` for presses between steps.
- The waits until a button clears after the dispatcher or the passenger sets it (elevator.c:116-118, 134-136, 163-165) are not modelled. `CallElevator` returns at the moment it sets the button.
- Elevator.ElevatorThread.ResumeAndMove: another thread may re-set the car's own floor button during the door-open wait (elevator.c:84). The model requires that it did not (`ValidPresses`, and the requires of `ResumeAndMove`). With that interleaving the retention scan finds the car's own floor, and the source can carry a car past the top or bottom floor.
- Elevator.RunServesAll: the liveness lemmas (`Run`, `RunStaysValid`, `TickDecreases`, `RunServesAll`, `ServedWithinBound`) assume no new requests arrive, since a steady stream of presses can keep a car busy forever.
- A `pthread_cond_signal` on the shared `call_sig` may wake another elevator than the one chosen (elevator.c:133). This is concurrency and is not modelled.
- The ready loop of `elevator_thr`, with its `sem_post`, its wait for a call and the `terminate` check (elevator.c:63-67), is not modelled. The readiness semaphore value is only an input to `Clock.ClockLoop`.
- Dispatch.CallElevator: the positions and directions are one snapshot for the whole call. In the source they can change between fallback rounds, as the elevators keep moving.
- Dispatch.CallElevator: the fallback loop never ends in the source until it succeeds. The model runs the given rounds and returns `None` when all of them fail.
- Clock.ClockLoop: `sleep(CLOCK_TIME)` and its floating-point period are left out. The tick broadcasts and the status printing are left out, and so are the unsynchronised reads of positions and directions they use (elevator.c:253, 264-265, 270-281).
- The input spawner's `scanf` loop, `create_person`, `create_elevator`, `malloc`, `free` and `pthread_create` are I/O and thread plumbing (elevator.c:193-226, 44-47, 146-149).
- The unused macros `MIN`, `MAX`, `ABS`, `DIST` and `LEQ` (elevator.c:16-20) are not modelled.
- Floor counts have no upper bound. Arrival increments without a limit (elevator.c:168), and the model does the same.
