/** Building-wide constants and the small helpers on per-floor flag rows that
    the elevator scan and the dispatcher's trylock scans share. */
module Config {

  /** Number of elevators. */
  const ELEVATORS: nat := 2
  /** Number of floors; floors are numbered 0 .. FLOORS - 1. */
  const FLOORS: nat := 12
  /** Initial population of every floor except the ground floor. */
  const PEOPLE_PER_FLOOR: nat := 6
  /** Consecutive all-ready clock ticks after which the program shuts down. */
  const ELEVATOR_TIMEOUT: nat := 5

  datatype Option<T> = None | Some(value: T)

  /** The lowest index whose flag is set, scanning from index 0 upward. */
  function FirstSet(m: seq<bool>): (r: Option<nat>)
    ensures r.Some? ==> r.value < |m| && m[r.value]
    ensures r.Some? ==> forall i :: 0 <= i < r.value ==> !m[i]
    ensures r.None? <==> forall i :: 0 <= i < |m| ==> !m[i]
  {
    if m == [] then None
    else if m[0] then Some(0)
    else match FirstSet(m[1..])
      case None => None
      case Some(i) => Some(i + 1)
  }

  /** Number of set flags. */
  function Count(m: seq<bool>): nat
  {
    if m == [] then 0 else (if m[0] then 1 else 0) + Count(m[1..])
  }

  /** Clearing one set flag lowers the count by exactly one. */
  lemma {:induction false} CountClear(m: seq<bool>, i: nat)
    requires i < |m| && m[i]
    ensures Count(m[i := false]) == Count(m) - 1
  {
    if i == 0 {
      assert m[i := false][1..] == m[1..];
    } else {
      assert m[i := false][1..] == m[1..][i - 1 := false];
      CountClear(m[1..], i - 1);
    }
  }

  /** No more flags are set than there are. */
  lemma {:induction false} CountBound(m: seq<bool>)
    ensures Count(m) <= |m|
  {
    if m != [] {
      CountBound(m[1..]);
    }
  }

  /** A row with no flag set counts zero. */
  lemma {:induction false} CountZero(m: seq<bool>)
    requires forall i :: 0 <= i < |m| ==> !m[i]
    ensures Count(m) == 0
  {
    if m != [] {
      CountZero(m[1..]);
    }
  }
}
