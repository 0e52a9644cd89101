/** `call_elevator`: attach a floor request to an elevator. The positions and
    directions of the elevators are a snapshot read under their locks; the
    outcome of each `trylock` is an input mask, `free` for the ride-along
    pass and one mask per wake-up of the fallback loop in `rounds`. */
module Dispatch {
  import opened Config

  /** The ride-along test: the elevator goes the requested way and has not
      yet passed the floor. */
  predicate OnTheWay(elevatorDir: int, elevatorPos: int, floor: int, dir: int)
  {
    dir == elevatorDir &&
    ((dir < 0 && floor <= elevatorPos) || (dir > 0 && floor >= elevatorPos))
  }

  /** Elevators the ride-along pass may pick: locked and on the way. */
  function RideAlongMask(free: seq<bool>, dirs: seq<int>, poss: seq<int>, floor: int, dir: int): seq<bool>
    requires |free| == |dirs| == |poss| == ELEVATORS
  {
    seq(ELEVATORS, e requires 0 <= e < ELEVATORS => free[e] && OnTheWay(dirs[e], poss[e], floor, dir))
  }

  /** Elevators one fallback round may pick: locked and without direction. */
  function IdleMask(free: seq<bool>, dirs: seq<int>): seq<bool>
    requires |free| == |dirs| == ELEVATORS
  {
    seq(ELEVATORS, e requires 0 <= e < ELEVATORS => free[e] && dirs[e] == 0)
  }

  predicate WellFormedRounds(rounds: seq<seq<bool>>)
  {
    forall r :: 0 <= r < |rounds| ==> |rounds[r]| == ELEVATORS
  }

  /** The fallback loop: in each round, the lowest-indexed locked idle elevator. */
  function Fallback(rounds: seq<seq<bool>>, dirs: seq<int>): Option<nat>
    requires WellFormedRounds(rounds) && |dirs| == ELEVATORS
  {
    if rounds == [] then None
    else match FirstSet(IdleMask(rounds[0], dirs))
      case Some(e) => Some(e)
      case None => Fallback(rounds[1..], dirs)
  }

  /** The elevator `call_elevator` attaches the request to, if any round picks one. */
  function Assign(free: seq<bool>, rounds: seq<seq<bool>>, dirs: seq<int>, poss: seq<int>, floor: int, dir: int): Option<nat>
    requires |free| == |dirs| == |poss| == ELEVATORS && WellFormedRounds(rounds)
  {
    match FirstSet(RideAlongMask(free, dirs, poss, floor, dir))
    case Some(e) => Some(e)
    case None => Fallback(rounds, dirs)
  }

  /** A fallback round finds an elevator exactly when some round has a locked
      idle one; it is the lowest such in the first round that has one. */
  lemma {:induction false} FallbackMeans(rounds: seq<seq<bool>>, dirs: seq<int>)
    requires WellFormedRounds(rounds) && |dirs| == ELEVATORS
    ensures Fallback(rounds, dirs).None? <==>
      forall r, e :: 0 <= r < |rounds| && 0 <= e < ELEVATORS ==> !(rounds[r][e] && dirs[e] == 0)
    ensures Fallback(rounds, dirs).Some? ==>
      var e := Fallback(rounds, dirs).value;
      e < ELEVATORS && dirs[e] == 0 &&
      exists r :: 0 <= r < |rounds| && rounds[r][e] &&
        (forall k :: 0 <= k < e ==> !(rounds[r][k] && dirs[k] == 0)) &&
        (forall q, k :: 0 <= q < r && 0 <= k < ELEVATORS ==> !(rounds[q][k] && dirs[k] == 0))
  {
    if rounds != [] {
      var m := IdleMask(rounds[0], dirs);
      FallbackMeans(rounds[1..], dirs);
      match FirstSet(m)
      case Some(e) =>
        assert rounds[0][e] && forall k :: 0 <= k < e ==> !m[k];
      case None =>
        assert forall k :: 0 <= k < ELEVATORS ==> !m[k];
        if Fallback(rounds, dirs).Some? {
          var e := Fallback(rounds, dirs).value;
          var r :| 0 <= r < |rounds[1..]| && rounds[1..][r][e] &&
            (forall k :: 0 <= k < e ==> !(rounds[1..][r][k] && dirs[k] == 0)) &&
            (forall q, k :: 0 <= q < r && 0 <= k < ELEVATORS ==> !(rounds[1..][q][k] && dirs[k] == 0));
          assert rounds[r + 1] == rounds[1..][r];
          forall q, k | 0 <= q < r + 1 && 0 <= k < ELEVATORS
            ensures !(rounds[q][k] && dirs[k] == 0)
          {
            if q > 0 {
              assert rounds[q] == rounds[1..][q - 1];
            } else {
              assert !m[k];
            }
          }
        } else {
          forall r, k | 0 <= r < |rounds| && 0 <= k < ELEVATORS
            ensures !(rounds[r][k] && dirs[k] == 0)
          {
            if r > 0 {
              assert rounds[r] == rounds[1..][r - 1];
            } else {
              assert !m[k];
            }
          }
        }
    }
  }

  /** Ride-along first: when some locked elevator is on the way, the request
      goes to the lowest-indexed such elevator, which moves in the requested
      direction and has not passed the floor. */
  lemma AssignPrefersRideAlong(free: seq<bool>, rounds: seq<seq<bool>>, dirs: seq<int>, poss: seq<int>, floor: int, dir: int)
    requires |free| == |dirs| == |poss| == ELEVATORS && WellFormedRounds(rounds)
    requires exists e :: 0 <= e < ELEVATORS && free[e] && OnTheWay(dirs[e], poss[e], floor, dir)
    ensures Assign(free, rounds, dirs, poss, floor, dir).Some?
    ensures var e := Assign(free, rounds, dirs, poss, floor, dir).value;
      e < ELEVATORS && free[e] && dirs[e] == dir &&
      (dir < 0 ==> floor <= poss[e]) && (dir > 0 ==> floor >= poss[e]) &&
      forall k :: 0 <= k < e ==> !(free[k] && OnTheWay(dirs[k], poss[k], floor, dir))
  {
    var m := RideAlongMask(free, dirs, poss, floor, dir);
    var e :| 0 <= e < ELEVATORS && free[e] && OnTheWay(dirs[e], poss[e], floor, dir);
    assert m[e];
  }

  /** Otherwise the choice is exactly the fallback's: an elevator is found only if it was
      locked in some round and had no direction; none is found only if no
      round had a locked idle elevator. */
  lemma AssignFallsBack(free: seq<bool>, rounds: seq<seq<bool>>, dirs: seq<int>, poss: seq<int>, floor: int, dir: int)
    requires |free| == |dirs| == |poss| == ELEVATORS && WellFormedRounds(rounds)
    requires forall e :: 0 <= e < ELEVATORS ==> !(free[e] && OnTheWay(dirs[e], poss[e], floor, dir))
    ensures Assign(free, rounds, dirs, poss, floor, dir) == Fallback(rounds, dirs)
    ensures var a := Assign(free, rounds, dirs, poss, floor, dir);
      a.Some? ==> (a.value < ELEVATORS && dirs[a.value] == 0 &&
                   exists r :: 0 <= r < |rounds| && rounds[r][a.value])
    ensures Assign(free, rounds, dirs, poss, floor, dir).None? <==>
      forall r, e :: 0 <= r < |rounds| && 0 <= e < ELEVATORS ==> !(rounds[r][e] && dirs[e] == 0)
  {
    var m := RideAlongMask(free, dirs, poss, floor, dir);
    assert forall e :: 0 <= e < ELEVATORS ==> !m[e];
    FallbackMeans(rounds, dirs);
  }

  /** `call_elevator`: sets the chosen elevator's button for `floor` and
      returns its index; `None` when every round lost the race. No other
      button changes. */
  method CallElevator(buttons: array2<bool>, dirs: seq<int>, poss: seq<int>, floor: int, dir: int,
                      free: seq<bool>, rounds: seq<seq<bool>>)
    returns (chosen: Option<nat>)
    requires buttons.Length0 == ELEVATORS && buttons.Length1 == FLOORS
    requires 0 <= floor < FLOORS && (dir == 1 || dir == -1)
    requires |free| == |dirs| == |poss| == ELEVATORS && WellFormedRounds(rounds)
    modifies buttons
    ensures chosen == Assign(free, rounds, dirs, poss, floor, dir)
    ensures forall e, f :: 0 <= e < ELEVATORS && 0 <= f < FLOORS ==>
      buttons[e, f] == (if chosen == Some(e) && f == floor then true else old(buttons[e, f]))
  {
    // Ride-along pass: an elevator already on its way to this floor.
    var e := 0;
    while e < ELEVATORS
      invariant 0 <= e <= ELEVATORS
      invariant forall k :: 0 <= k < e ==> !RideAlongMask(free, dirs, poss, floor, dir)[k]
    {
      if free[e] {
        if dir == dirs[e] {
          if (dir < 0 && floor <= poss[e]) || (dir > 0 && floor >= poss[e]) {
            assert FirstSet(RideAlongMask(free, dirs, poss, floor, dir)) == Some(e);
            buttons[e, floor] := true;
            return Some(e);
          }
        }
      }
      e := e + 1;
    }
    assert FirstSet(RideAlongMask(free, dirs, poss, floor, dir)) == None;

    // Fallback: after each wake-up, the first locked elevator without direction.
    var r := 0;
    while r < |rounds|
      invariant 0 <= r <= |rounds|
      invariant Fallback(rounds, dirs) == Fallback(rounds[r..], dirs)
    {
      e := 0;
      while e < ELEVATORS
        invariant 0 <= e <= ELEVATORS
        invariant forall k :: 0 <= k < e ==> !IdleMask(rounds[r], dirs)[k]
      {
        if rounds[r][e] {
          if dirs[e] == 0 {
            assert FirstSet(IdleMask(rounds[r], dirs)) == Some(e);
            buttons[e, floor] := true;
            return Some(e);
          }
        }
        e := e + 1;
      }
      assert FirstSet(IdleMask(rounds[r], dirs)) == None;
      assert rounds[r..][1..] == rounds[r + 1..];
      r := r + 1;
    }
    return None;
  }
}
