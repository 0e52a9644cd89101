/** One elevator thread's active loop: each iteration between two clock waits
    is one `Tick`. The value-level `Tick` is the specification; the class
    `ElevatorThread` runs the same step in place on the shared button array. */
module Elevator {
  import opened Config

  /** What the thread owns: its floor, its direction and its own row of buttons. */
  datatype Car = Car(floor: int, direction: int, buttons: seq<bool>)

  /** How an iteration of the active loop ends: back to the ready state
      (no button pressed), or after moving by the new direction, having
      opened the doors first when the current floor was requested. */
  datatype Outcome = BackToReady | Moved(doorsOpened: bool)

  predicate ValidCar(c: Car)
  {
    0 <= c.floor < FLOORS && -1 <= c.direction <= 1 && |c.buttons| == FLOORS
  }

  /** Direction chosen by an idle car: towards the lowest requested floor,
      found by scanning from floor 0 whatever the car's position; down (-1)
      also when that floor is the current one; 0 when nothing is requested. */
  function IdleDirection(floor: int, buttons: seq<bool>): int
  {
    match FirstSet(buttons)
    case None => 0
    case Some(f) => if floor < f then 1 else -1
  }

  /** `to` lies on the path that starts at `from` and goes in direction `d`. */
  predicate Ahead(from: int, to: int, d: int)
  {
    if d > 0 then from <= to else to <= from
  }

  /** The retention scan: walk from floor `f` in direction `d` while inside
      the building, stopping at the first pressed button. */
  predicate PendingFrom(buttons: seq<bool>, f: int, d: int)
    requires d == 1 || d == -1
    decreases if d == 1 then |buttons| - f else f + 1
  {
    0 <= f < |buttons| && (buttons[f] || PendingFrom(buttons, f + d, d))
  }

  /** The buttons of `row` together with those set in `pressed`. */
  function Merge(row: seq<bool>, pressed: seq<bool>): seq<bool>
    requires |row| == |pressed|
  {
    seq(|row|, f requires 0 <= f < |row| => row[f] || pressed[f])
  }

  /** No button pressed by any other thread. */
  function NoPresses(): seq<bool>
  {
    seq(FLOORS, _ => false)
  }

  /** Buttons other threads may press while the doors are open: any floor
      but the car's own, whose button the car has just cleared. */
  predicate ValidPresses(c: Car, pressed: seq<bool>)
  {
    |pressed| == FLOORS && 0 <= c.floor < FLOORS && !pressed[c.floor]
  }

  /** First part of an iteration, up to the door-open wait: an idle car
      picks a direction (or goes back to ready), then the doors open and
      the button clears if the current floor is requested. */
  function Doors(c: Car): (Car, Outcome)
    requires ValidCar(c)
  {
    var d := if c.direction == 0 then IdleDirection(c.floor, c.buttons) else c.direction;
    if d == 0 then (c, BackToReady)
    else
      var doors := c.buttons[c.floor];
      var b := if doors then c.buttons[c.floor := false] else c.buttons;
      (Car(c.floor, d, b), Moved(doors))
  }

  /** Second part, after the door-open wait: keep the direction only if a
      button is pressed ahead, and move by the direction kept. */
  function Resume(c: Car): Car
    requires ValidCar(c) && c.direction != 0 && !c.buttons[c.floor]
  {
    var kept := if PendingFrom(c.buttons, c.floor, c.direction) then c.direction else 0;
    Car(c.floor + kept, kept, c.buttons)
  }

  /** One iteration of the active loop. `pressed` holds the buttons other
      threads set while the doors were open (the lock is released during
      that wait); it matters only when the doors did open. */
  function Tick(c: Car, pressed: seq<bool>): (Car, Outcome)
    requires ValidCar(c) && ValidPresses(c, pressed)
  {
    var (m, o) := Doors(c);
    if o == BackToReady then (c, o)
    else
      var w := if o.doorsOpened then m.(buttons := Merge(m.buttons, pressed)) else m;
      (Resume(w), o)
  }

  /** The retention scan finds a button exactly when one is pressed on the
      path from `f` in direction `d`, provided the scan starts inside. */
  lemma {:induction false} PendingFromMeans(buttons: seq<bool>, f: int, d: int)
    requires d == 1 || d == -1
    ensures PendingFrom(buttons, f, d) <==>
      0 <= f < |buttons| && exists g :: 0 <= g < |buttons| && buttons[g] && Ahead(f, g, d)
    decreases if d == 1 then |buttons| - f else f + 1
  {
    if 0 <= f < |buttons| {
      PendingFromMeans(buttons, f + d, d);
      if !buttons[f] && exists g :: 0 <= g < |buttons| && buttons[g] && Ahead(f, g, d) {
        var g :| 0 <= g < |buttons| && buttons[g] && Ahead(f, g, d);
        assert g != f;
        assert Ahead(f + d, g, d);
      }
    }
  }

  /** A scan that finds a button while the current floor's button is clear
      has a next floor inside the building. */
  lemma NextFloorInside(buttons: seq<bool>, f: int, d: int)
    requires d == 1 || d == -1
    requires 0 <= f < |buttons| && !buttons[f]
    requires PendingFrom(buttons, f, d)
    ensures 0 <= f + d < |buttons|
  {
  }

  /** Resuming keeps the floor inside the building. */
  lemma ResumePreservesValid(c: Car)
    requires ValidCar(c) && c.direction != 0 && !c.buttons[c.floor]
    ensures ValidCar(Resume(c))
  {
    if PendingFrom(c.buttons, c.floor, c.direction) {
      NextFloorInside(c.buttons, c.floor, c.direction);
    }
  }

  /** The working direction of a step: the old one, or the idle choice. */
  function WorkingDirection(c: Car): int
  {
    if c.direction == 0 then IdleDirection(c.floor, c.buttons) else c.direction
  }

  /** A step keeps the floor inside the building and the direction in
      {-1, 0, 1}, whatever other threads press during the door-open wait. */
  lemma TickPreservesValid(c: Car, pressed: seq<bool>)
    requires ValidCar(c) && ValidPresses(c, pressed)
    ensures ValidCar(Tick(c, pressed).0)
  {
    var (m, o) := Doors(c);
    if o.Moved? {
      var w := if o.doorsOpened then m.(buttons := Merge(m.buttons, pressed)) else m;
      ResumePreservesValid(w);
    }
  }

  /** A moving car never turns round in one step: its direction afterwards
      is its old direction or 0. */
  lemma TickNoReversal(c: Car, pressed: seq<bool>)
    requires ValidCar(c) && ValidPresses(c, pressed) && c.direction != 0
    ensures Tick(c, pressed).0.direction == c.direction || Tick(c, pressed).0.direction == 0
    ensures Tick(c, pressed).1.Moved?
  {
  }

  /** An idle car goes back to ready, unchanged, exactly when no button is
      pressed. */
  lemma TickIdleReady(c: Car, pressed: seq<bool>)
    requires ValidCar(c) && ValidPresses(c, pressed) && c.direction == 0
    ensures Tick(c, pressed).1 == BackToReady <==> forall f :: 0 <= f < FLOORS ==> !c.buttons[f]
    ensures Tick(c, pressed).1 == BackToReady ==> Tick(c, pressed).0 == c
  {
  }

  /** An idle car whose lowest pressed button is at floor `f` heads for it:
      up if `f` is above the car, down if below. When `f` is the car's own
      floor the scan picks down, the doors open, and the step ends with
      direction 0 unless another thread pressed a floor below meanwhile. */
  lemma TickIdleHeads(c: Car, pressed: seq<bool>, f: nat)
    requires ValidCar(c) && ValidPresses(c, pressed) && c.direction == 0
    requires f < FLOORS && c.buttons[f] && forall g :: 0 <= g < f ==> !c.buttons[g]
    ensures f != c.floor ==> Tick(c, pressed).0.direction == if c.floor < f then 1 else -1
    ensures f == c.floor ==> Tick(c, pressed).1 == Moved(true)
    ensures f == c.floor ==>
      (Tick(c, pressed).0.direction == -1 <==> exists g :: 0 <= g < c.floor && pressed[g])
    ensures f == c.floor ==> Tick(c, pressed).0.direction in {-1, 0}
  {
    assert FirstSet(c.buttons) == Some(f);
    var d := WorkingDirection(c);
    var n := Tick(c, pressed).0;
    PendingFromMeans(n.buttons, c.floor, d);
    if f != c.floor {
      assert n.buttons[f] && Ahead(c.floor, f, d);
    } else if n.direction == -1 {
      var g :| 0 <= g < FLOORS && n.buttons[g] && Ahead(c.floor, g, d);
      assert 0 <= g < c.floor && pressed[g];
    } else if exists g :: 0 <= g < c.floor && pressed[g] {
      var g :| 0 <= g < c.floor && pressed[g];
      assert n.buttons[g] && Ahead(c.floor, g, d);
    }
  }

  /** The doors open exactly when the current floor is requested; its button
      ends clear. Every other button keeps its value, plus those other
      threads pressed while the doors were open. With no new presses the
      count of pressed buttons drops by one per door opening. */
  lemma TickDoorOpen(c: Car, pressed: seq<bool>)
    requires ValidCar(c) && ValidPresses(c, pressed)
    ensures var (n, o) := Tick(c, pressed);
      o.Moved? ==> o.doorsOpened == c.buttons[c.floor] && !n.buttons[c.floor]
    ensures var (n, o) := Tick(c, pressed);
      |n.buttons| == FLOORS &&
      forall f :: 0 <= f < FLOORS && f != c.floor ==>
        n.buttons[f] == (c.buttons[f] || (o == Moved(true) && pressed[f]))
    ensures var (n, o) := Tick(c, pressed);
      (forall f :: 0 <= f < FLOORS && pressed[f] ==> c.buttons[f]) ==>
        Count(n.buttons) == Count(c.buttons) - (if o == Moved(true) then 1 else 0)
  {
    var (n, o) := Tick(c, pressed);
    if o == Moved(true) {
      CountClear(c.buttons, c.floor);
      if forall f :: 0 <= f < FLOORS && pressed[f] ==> c.buttons[f] {
        assert n.buttons == c.buttons[c.floor := false];
      }
    }
  }

  /** After the doors, the direction is kept exactly when a button is pressed
      on the path from the current floor in that direction, counting those
      pressed during the door-open wait, and reset to 0 otherwise. */
  lemma TickRetention(c: Car, pressed: seq<bool>)
    requires ValidCar(c) && ValidPresses(c, pressed)
    ensures var (n, o) := Tick(c, pressed);
      var d := WorkingDirection(c);
      o.Moved? ==>
        (n.direction == d || n.direction == 0) &&
        (n.direction != 0 <==> exists g :: 0 <= g < FLOORS && n.buttons[g] && Ahead(c.floor, g, d))
  {
    var (n, o) := Tick(c, pressed);
    if o.Moved? {
      PendingFromMeans(n.buttons, c.floor, WorkingDirection(c));
    }
  }

  /** The car moves by its new direction: at most one floor per step. */
  lemma TickMovement(c: Car, pressed: seq<bool>)
    requires ValidCar(c) && ValidPresses(c, pressed)
    ensures Tick(c, pressed).0.floor == c.floor + Tick(c, pressed).0.direction
    ensures c.floor - 1 <= Tick(c, pressed).0.floor <= c.floor + 1
  {
  }

  /** `n` iterations of the active loop with no other thread pressing buttons. */
  function Run(c: Car, n: nat): Car
    requires ValidCar(c)
    decreases n
  {
    if n == 0 then c
    else
      TickPreservesValid(c, NoPresses());
      Run(Tick(c, NoPresses()).0, n - 1)
  }

  /** However many steps it takes, a car stays inside the building and its
      pressed buttons never grow in number. */
  lemma {:induction false} RunStaysValid(c: Car, n: nat)
    requires ValidCar(c)
    ensures ValidCar(Run(c, n))
    ensures Count(Run(c, n).buttons) <= Count(c.buttons)
    decreases n
  {
    if n > 0 {
      TickPreservesValid(c, NoPresses());
      TickDoorOpen(c, NoPresses());
      RunStaysValid(Tick(c, NoPresses()).0, n - 1);
    }
  }

  /** A moving car has a pressed button ahead of it, its own floor included.
      Every reachable state has this: a car starts with direction 0, a step
      keeps it (`TickKeepsHeading`), and pressing a button cannot break it. */
  predicate Heading(c: Car)
    requires ValidCar(c)
  {
    c.direction != 0 ==> PendingFrom(c.buttons, c.floor, c.direction)
  }

  /** Another thread pressing a button (the dispatcher or a passenger)
      keeps `Heading` and the validity of the car. */
  lemma PressKeepsHeading(c: Car, f: nat)
    requires ValidCar(c) && Heading(c) && f < FLOORS
    ensures ValidCar(c.(buttons := c.buttons[f := true]))
    ensures Heading(c.(buttons := c.buttons[f := true]))
  {
    var b := c.buttons[f := true];
    if c.direction != 0 {
      PendingFromMeans(c.buttons, c.floor, c.direction);
      PendingFromMeans(b, c.floor, c.direction);
      var g :| 0 <= g < |c.buttons| && c.buttons[g] && Ahead(c.floor, g, c.direction);
      assert b[g];
    }
  }

  /** How many more floors the retention scan keeps a car going in
      direction `d` from floor `f`: the distance to the farthest pressed
      button beyond `f`. */
  function Reach(buttons: seq<bool>, f: int, d: int): nat
    requires d == 1 || d == -1
    decreases if d == 1 then |buttons| - f else f + 1
  {
    if 0 <= f < |buttons| && PendingFrom(buttons, f + d, d) then 1 + Reach(buttons, f + d, d) else 0
  }

  lemma {:induction false} ReachBound(buttons: seq<bool>, f: int, d: int)
    requires d == 1 || d == -1
    requires 0 <= f < |buttons|
    ensures Reach(buttons, f, d) <= if d == 1 then |buttons| - 1 - f else f
    decreases if d == 1 then |buttons| - f else f + 1
  {
    if PendingFrom(buttons, f + d, d) {
      ReachBound(buttons, f + d, d);
    }
  }

  /** Ranking of a car's state: pressed buttons first, then how far the car
      still has to go in its direction; an idle car ranks above any moving
      car with as many buttons pressed. */
  function Measure(c: Car): nat
    requires ValidCar(c)
  {
    Count(c.buttons) * (FLOORS + 1) +
    (if c.direction == 0 then FLOORS else Reach(c.buttons, c.floor, c.direction))
  }

  /** A step keeps `Heading`, whatever other threads press during the
      door-open wait. */
  lemma TickKeepsHeading(c: Car, pressed: seq<bool>)
    requires ValidCar(c) && ValidPresses(c, pressed) && Heading(c)
    ensures ValidCar(Tick(c, pressed).0) && Heading(Tick(c, pressed).0)
  {
    TickPreservesValid(c, pressed);
    var d := WorkingDirection(c);
    if d != 0 {
      var n := Tick(c, pressed).0;
      if n.direction != 0 {
        assert PendingFrom(n.buttons, c.floor, d);
        assert !n.buttons[c.floor];
      }
    }
  }

  /** While a button is pressed, every step lowers the ranking. */
  lemma TickDecreases(c: Car)
    requires ValidCar(c) && Heading(c) && Count(c.buttons) > 0
    ensures ValidCar(Tick(c, NoPresses()).0) && Measure(Tick(c, NoPresses()).0) < Measure(c)
  {
    TickKeepsHeading(c, NoPresses());
    TickDoorOpen(c, NoPresses());
    var n := Tick(c, NoPresses()).0;
    var d := WorkingDirection(c);
    if d == 0 {
      assert FirstSet(c.buttons) == None;
      CountZero(c.buttons);
      assert false;
    }
    if n.direction != 0 {
      ReachBound(n.buttons, n.floor, n.direction);
    }
    if !c.buttons[c.floor] {
      // No doors: the car keeps going and gets one floor closer.
      assert n.buttons == c.buttons;
      if c.direction == 0 {
        var f :| FirstSet(c.buttons) == Some(f);
        assert Ahead(c.floor, f, d);
        PendingFromMeans(c.buttons, c.floor, d);
        assert n.direction == d;
      } else {
        assert PendingFrom(c.buttons, c.floor + d, d);
        assert n.direction == d;
      }
    }
  }

  /** Every pressed button is served: with no new requests, a car in a
      reachable state has cleared all its buttons after `Measure(c)` steps. */
  lemma {:induction false} RunServesAll(c: Car, n: nat)
    requires ValidCar(c) && Heading(c) && n >= Measure(c)
    ensures Count(Run(c, n).buttons) == 0
    decreases n
  {
    if Count(c.buttons) == 0 {
      RunStaysValid(c, n);
    } else {
      TickDecreases(c);
      TickKeepsHeading(c, NoPresses());
      RunServesAll(Tick(c, NoPresses()).0, n - 1);
    }
  }

  /** In particular `(FLOORS + 1) * (FLOORS + 1)` steps always suffice. */
  lemma ServedWithinBound(c: Car)
    requires ValidCar(c) && Heading(c)
    ensures Count(Run(c, (FLOORS + 1) * (FLOORS + 1)).buttons) == 0
  {
    CountBound(c.buttons);
    if c.direction != 0 {
      ReachBound(c.buttons, c.floor, c.direction);
    }
    RunServesAll(c, (FLOORS + 1) * (FLOORS + 1));
  }

  /** The row of `elevator_buttons` that belongs to elevator `e`. */
  ghost function Row(a: array2<bool>, e: nat): (r: seq<bool>)
    reads a
    requires e < a.Length0
    ensures |r| == a.Length1
    ensures forall f :: 0 <= f < a.Length1 ==> r[f] == a[e, f]
  {
    seq(a.Length1, f requires 0 <= f < a.Length1 reads a => a[e, f])
  }

  /** An elevator thread: `floor` and `direction` are the thread's locals that
      other threads see through pointers; `buttons` is the shared
      `elevator_buttons` array, of which this thread owns row `id`. */
  class ElevatorThread {
    const id: nat
    const buttons: array2<bool>
    var floor: int
    var direction: int

    ghost predicate Valid()
      reads this
    {
      id < buttons.Length0 && buttons.Length1 == FLOORS &&
      0 <= floor < FLOORS && -1 <= direction <= 1
    }

    ghost function State(): Car
      reads this, buttons
      requires Valid()
    {
      Car(floor, direction, Row(buttons, id))
    }

    /** Thread start-up: ground floor, no direction, every button of its row off. */
    constructor (id: nat, buttons: array2<bool>)
      requires id < buttons.Length0 && buttons.Length1 == FLOORS
      modifies buttons
      ensures Valid() && this.id == id && this.buttons == buttons
      ensures State() == Car(0, 0, seq(FLOORS, _ => false))
      ensures forall e, f :: 0 <= e < buttons.Length0 && e != id && 0 <= f < FLOORS ==>
        buttons[e, f] == old(buttons[e, f])
    {
      this.id := id;
      this.buttons := buttons;
      floor := 0;
      direction := 0;
      new;
      var f := 0;
      while f < FLOORS
        invariant 0 <= f <= FLOORS
        invariant floor == 0 && direction == 0
        invariant forall g :: 0 <= g < f ==> !buttons[id, g]
        invariant forall e, g :: 0 <= e < buttons.Length0 && e != id && 0 <= g < FLOORS ==>
          buttons[e, g] == old(buttons[e, g])
      {
        buttons[id, f] := false;
        f := f + 1;
      }
      assert Row(buttons, id) == seq(FLOORS, _ => false);
    }

    /** The idle scan: the direction towards the lowest pressed button of
        this elevator's row, scanning from floor 0; 0 when none is pressed. */
    method IdleScan() returns (d: int)
      requires Valid()
      ensures d == IdleDirection(floor, Row(buttons, id))
    {
      d := 0;
      var f := 0;
      while f < FLOORS
        invariant 0 <= f <= FLOORS
        invariant forall g :: 0 <= g < f ==> !buttons[id, g]
      {
        if buttons[id, f] {
          d := if floor < f then 1 else -1;
          assert FirstSet(Row(buttons, id)) == Some(f);
          return;
        }
        f := f + 1;
      }
      assert FirstSet(Row(buttons, id)) == None;
    }

    /** The retention scan: `d` if a button of this elevator's row is pressed
        from the current floor onwards in direction `d`, 0 otherwise. */
    method RetentionScan(d: int) returns (kept: int)
      requires Valid() && (d == 1 || d == -1)
      ensures kept == if PendingFrom(Row(buttons, id), floor, d) then d else 0
    {
      ghost var row := Row(buttons, id);
      kept := 0;
      var f := floor;
      while 0 <= f < FLOORS
        invariant d == 1 ==> floor <= f <= FLOORS
        invariant d == -1 ==> -1 <= f <= floor
        invariant PendingFrom(row, floor, d) == PendingFrom(row, f, d)
        decreases if d == 1 then FLOORS - f else f + 1
      {
        if buttons[id, f] {
          kept := d;
          return;
        }
        f := f + d;
      }
    }

    /** First part of a pass, up to the door-open wait: pick a direction if
        idle (or go back to ready), then open the doors and clear the button
        if the current floor is requested. */
    method OpenDoors() returns (outcome: Outcome)
      requires Valid()
      modifies this, buttons
      ensures Valid()
      ensures (State(), outcome) == Doors(old(State()))
      ensures forall e, f :: 0 <= e < buttons.Length0 && e != id && 0 <= f < FLOORS ==>
        buttons[e, f] == old(buttons[e, f])
    {
      ghost var before := State();
      if direction == 0 {
        direction := IdleScan();
        if direction == 0 {
          return BackToReady;
        }
      }
      outcome := Moved(buttons[id, floor]);
      if buttons[id, floor] {
        buttons[id, floor] := false;
      }
      assert Row(buttons, id) == if before.buttons[floor] then before.buttons[floor := false] else before.buttons;
    }

    /** Second part, after the door-open wait: keep the direction only if a
        button is pressed ahead, then move. Other threads may have pressed
        buttons meanwhile, but not this car's own floor. */
    method ResumeAndMove()
      requires Valid() && direction != 0 && !buttons[id, floor]
      modifies this
      ensures Valid()
      ensures State() == Resume(old(State()))
    {
      ghost var before := State();
      var kept := RetentionScan(direction);
      direction := kept;
      floor := floor + direction;
      ResumePreservesValid(before);
    }
  }
}
