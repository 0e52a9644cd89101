/** `person_thr` and the floor populations it moves: a trip is validated, takes
    one person off its source floor (the `floor_people` semaphores), and on
    arrival puts one person on its destination floor. */
module Passenger {
  import opened Config

  /** Validate a trip and give its direction: `None` for a rejected trip
      (same floor, or a floor outside the building), otherwise +1 going up
      and -1 going down. */
  function PlanTrip(src: int, dest: int): (r: Option<int>)
    ensures r.None? <==> src == dest || src < 0 || dest < 0 || src >= FLOORS || dest >= FLOORS
    ensures r.Some? ==> r.value != 0 && (r.value > 0 <==> src < dest)
  {
    if src == dest then None
    else if src < 0 || dest < 0 then None
    else if src >= FLOORS || dest >= FLOORS then None
    else Some(if src < dest then 1 else -1)
  }

  /** Following the planned direction `|dest - src|` floors from `src` ends at
      `dest`, and every floor on the way is inside the building. */
  lemma PlanTripReachesDestination(src: int, dest: int)
    requires PlanTrip(src, dest).Some?
    ensures var d := PlanTrip(src, dest).value;
      var n := if src < dest then dest - src else src - dest;
      src + d * n == dest &&
      forall k :: 0 <= k <= n ==> 0 <= src + d * k < FLOORS
  {
  }

  /** People on all floors together. */
  function Total(s: seq<int>): int
  {
    if s == [] then 0 else s[0] + Total(s[1..])
  }

  /** Changing one floor's count changes the total by the same amount. */
  lemma {:induction false} TotalUpdate(s: seq<int>, i: nat, v: int)
    requires i < |s|
    ensures Total(s[i := v]) == Total(s) - s[i] + v
  {
    if i == 0 {
      assert s[i := v][1..] == s[1..];
    } else {
      assert s[i := v][1..] == s[1..][i - 1 := v];
      TotalUpdate(s[1..], i - 1, v);
    }
  }

  /** Starting population: nobody on the ground floor, `PEOPLE_PER_FLOOR` on each other floor. */
  function InitialPeople(): seq<int>
  {
    seq(FLOORS, f => if f == 0 then 0 else PEOPLE_PER_FLOOR)
  }

  /** Total of `n` floors holding `k` people each. */
  lemma {:induction false} TotalConstant(s: seq<int>, k: int)
    requires forall f :: 0 <= f < |s| ==> s[f] == k
    ensures Total(s) == |s| * k
  {
    if s != [] {
      TotalConstant(s[1..], k);
    }
  }

  /** The building starts with `(FLOORS - 1) * PEOPLE_PER_FLOOR` people, none
      of them on the ground floor, and no floor count negative. */
  lemma InitialPopulation()
    ensures |InitialPeople()| == FLOORS && InitialPeople()[0] == 0
    ensures forall f :: 0 <= f < FLOORS ==> InitialPeople()[f] >= 0
    ensures Total(InitialPeople()) == (FLOORS - 1) * PEOPLE_PER_FLOOR
  {
    var s := InitialPeople();
    TotalConstant(s[1..], PEOPLE_PER_FLOOR);
  }

  /** A completed trip takes one person off `src` and puts one on `dest`:
      the total is unchanged and no count becomes negative. */
  lemma TripConservesTotal(s: seq<int>, src: nat, dest: nat)
    requires src < |s| && dest < |s| && src != dest
    requires s[src] > 0 && forall f :: 0 <= f < |s| ==> s[f] >= 0
    ensures var t := s[src := s[src] - 1][dest := s[dest] + 1];
      Total(t) == Total(s) && forall f :: 0 <= f < |t| ==> t[f] >= 0
  {
    var u := s[src := s[src] - 1];
    TotalUpdate(s, src, s[src] - 1);
    TotalUpdate(u, dest, s[dest] + 1);
  }

  /** On board elevator `e`, the passenger presses its destination button;
      no other button of any elevator changes. */
  method PressDestination(buttons: array2<bool>, e: nat, dest: int)
    requires e < buttons.Length0 && 0 <= dest < buttons.Length1
    modifies buttons
    ensures buttons[e, dest]
    ensures forall i, f :: 0 <= i < buttons.Length0 && 0 <= f < buttons.Length1 && (i, f) != (e, dest) ==>
      buttons[i, f] == old(buttons[i, f])
  {
    buttons[e, dest] := true;
  }

  /** How a passenger's first step ends: dropped by the validation, still
      waiting for someone on its source floor, or boarding in `direction`. */
  datatype Start = Rejected | Blocked | Boarding(direction: int)

  /** The per-floor population counters. */
  class Floors {
    const people: array<int>

    ghost predicate Valid()
      reads this, people
    {
      people.Length == FLOORS && forall f :: 0 <= f < FLOORS ==> people[f] >= 0
    }

    /** Initial populations as `init` sets them. */
    constructor ()
      ensures Valid() && fresh(people)
      ensures people[..] == InitialPeople()
    {
      people := new int[FLOORS];
      new;
      people[0] := 0;
      var i := 1;
      while i < FLOORS
        invariant 1 <= i <= FLOORS
        invariant people[0] == 0
        invariant forall f :: 1 <= f < i ==> people[f] == PEOPLE_PER_FLOOR
      {
        people[i] := PEOPLE_PER_FLOOR;
        i := i + 1;
      }
    }

    /** A passenger starts a trip: rejected with no change when `PlanTrip`
        rejects it; blocked with no change while its source floor is empty;
        otherwise one person leaves `src` and the trip gets its direction. */
    method StartTrip(src: int, dest: int) returns (r: Start)
      requires Valid()
      modifies people
      ensures Valid()
      ensures r == Rejected <==> PlanTrip(src, dest).None?
      ensures r == Blocked <==> PlanTrip(src, dest).Some? && old(people[src]) == 0
      ensures r.Boarding? ==> PlanTrip(src, dest) == Some(r.direction)
      ensures r.Boarding? ==> people[..] == old(people[..])[src := old(people[src]) - 1]
      ensures !r.Boarding? ==> people[..] == old(people[..])
    {
      if src == dest { return Rejected; }
      if src < 0 || dest < 0 { return Rejected; }
      if src >= FLOORS || dest >= FLOORS { return Rejected; }

      if people[src] == 0 { return Blocked; }
      people[src] := people[src] - 1;

      var direction := if src < dest then 1 else -1;
      r := Boarding(direction);
    }

    /** The passenger steps out at `dest`: one more person there. */
    method Arrive(dest: int)
      requires Valid() && 0 <= dest < FLOORS
      modifies people
      ensures Valid()
      ensures people[..] == old(people[..])[dest := old(people[dest]) + 1]
    {
      people[dest] := people[dest] + 1;
    }
  }
}
