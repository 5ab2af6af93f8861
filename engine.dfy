/** The game engine's logic without its page: the movement step toward a
    goal, the per-tick update of every moving thing, the move order a click
    gives, the selection a click makes, and the delay before the next tick. */
module Engine {
  import opened JsObject
  import opened Constants
  import opened EntityStore
  import opened World1

  function Min(a: real, b: real): real { if a <= b then a else b }
  function Max(a: real, b: real): real { if a >= b then a else b }

  /* ------------------------------------------------------------ movement step */

  /** One axis of `getCloserToGoal`: toward the goal by `speed`, stopping on
      the goal. */
  function StepAxis(s: real, g: real, speed: real): (r: real)
    ensures speed >= 0.0 && s <= g ==> s <= r <= g && r - s <= speed
    ensures speed >= 0.0 && g <= s ==> g <= r <= s && s - r <= speed
    ensures s == g ==> r == s
    ensures r == g || r == s + speed || r == s - speed
  {
    if s < g then Min(g, s + speed)
    else if s > g then Max(g, s - speed)
    else s
  }

  /** The result of `getCloserToGoal`. */
  datatype Step = Step(x: real, y: real, done: bool)

  /** What `getCloserToGoal` needs to compute numbers: a numeric position and
      speed (a thing without `speed`, a building, would step to `NaN`). */
  predicate Movable(source: Record)
  {
    Get(source, X).Num? && Get(source, Y).Num? && Get(source, Speed).Num?
  }

  /** `getCloserToGoal(source, goal)`: each axis steps on its own; the step is
      done exactly when both coordinates are on the goal. */
  function GetCloserToGoal(source: Record, goalX: real, goalY: real): (r: Step)
    requires Movable(source)
    ensures r.done <==> r.x == goalX && r.y == goalY
    ensures r.x == StepAxis(Get(source, X).n, goalX, Get(source, Speed).n)
    ensures r.y == StepAxis(Get(source, Y).n, goalY, Get(source, Speed).n)
  {
    var speed := Get(source, Speed).n;
    var x := StepAxis(Get(source, X).n, goalX, speed);
    var y := StepAxis(Get(source, Y).n, goalY, speed);
    Step(x, y, x == goalX && y == goalY)
  }

  /** The coordinate after `n` steps along one axis. */
  function AxisAfter(s: real, g: real, speed: real, n: nat): real
    decreases n
  {
    if n == 0 then s else AxisAfter(StepAxis(s, g, speed), g, speed, n - 1)
  }

  /** The distance `n` steps of `speed` cover, added up one step at a time. */
  function Travel(speed: real, n: nat): (d: real)
    ensures speed >= 0.0 ==> d >= 0.0
    decreases n
  {
    if n == 0 then 0.0 else Travel(speed, n - 1) + speed
  }

  /** `n` steps of `speed` cover `n * speed`. */
  lemma {:induction false} TravelIsProduct(speed: real, n: nat)
    ensures Travel(speed, n) == n as real * speed
    decreases n
  {
    if n > 0 {
      TravelIsProduct(speed, n - 1);
      assert n as real * speed == (n - 1) as real * speed + speed;
    }
  }

  /** `n` steps cover `n * speed`, never passing the goal. */
  lemma {:induction false} AxisAfterSteps(s: real, g: real, speed: real, n: nat)
    requires speed >= 0.0
    ensures s <= g ==> AxisAfter(s, g, speed, n) == Min(g, s + Travel(speed, n))
    ensures g <= s ==> AxisAfter(s, g, speed, n) == Max(g, s - Travel(speed, n))
    decreases n
  {
    if n > 0 {
      AxisAfterSteps(StepAxis(s, g, speed), g, speed, n - 1);
    }
  }

  /** The least integer not below `r`. */
  function Ceil(r: real): (c: int)
    ensures r <= c as real < r + 1.0
  {
    -((-r).Floor)
  }

  function Abs(r: real): real { if r < 0.0 then -r else r }

  /** The number of steps an axis needs: `ceil(|goal - start| / speed)`. */
  function StepsNeeded(s: real, g: real, speed: real): int
    requires speed > 0.0
  {
    Ceil(Abs(g - s) / speed)
  }

  /** With a positive speed an axis is on its goal after `n` steps exactly
      when `n` is at least `ceil(|goal - start| / speed)`. */
  lemma AxisArrives(s: real, g: real, speed: real, n: nat)
    requires speed > 0.0
    ensures AxisAfter(s, g, speed, n) == g <==> n >= StepsNeeded(s, g, speed)
  {
    AxisAfterSteps(s, g, speed, n);
    TravelIsProduct(speed, n);
    StepsCover(speed, Abs(g - s), n);
  }

  /** `n` steps of a positive speed cover a distance exactly when `n` is at
      least the distance over the speed, rounded up. */
  lemma StepsCover(speed: real, dist: real, n: nat)
    requires speed > 0.0
    ensures n as real * speed >= dist <==> n >= Ceil(dist / speed)
  {
    var q := dist / speed;
    assert q * speed == dist;
    assert n as real * speed >= dist <==> n as real >= q by {
      assert n as real * speed - q * speed == (n as real - q) * speed;
      SignOfProduct(n as real - q, speed);
    }
  }

  lemma SignOfProduct(a: real, b: real)
    requires b > 0.0
    ensures a * b >= 0.0 <==> a >= 0.0
  {
    if a < 0.0 {
      assert (-a) * b > 0.0;
    }
  }

  /** The `done` flag of the `n`-th call (from the start) is set exactly when
      both axes have had the steps they need. */
  lemma DoneAfter(source: Record, goalX: real, goalY: real, n: nat)
    requires Movable(source) && Get(source, Speed).n > 0.0
    ensures var sx, sy, speed := Get(source, X).n, Get(source, Y).n, Get(source, Speed).n;
      var moved := source[X := Num(AxisAfter(sx, goalX, speed, n))][Y := Num(AxisAfter(sy, goalY, speed, n))];
      GetCloserToGoal(moved, goalX, goalY).done <==>
        n + 1 >= StepsNeeded(sx, goalX, speed) && n + 1 >= StepsNeeded(sy, goalY, speed)
  {
    var sx, sy, speed := Get(source, X).n, Get(source, Y).n, Get(source, Speed).n;
    AxisArrives(sx, goalX, speed, n + 1);
    AxisArrives(sy, goalY, speed, n + 1);
    AxisAfterShift(sx, goalX, speed, n);
    AxisAfterShift(sy, goalY, speed, n);
  }

  /** One more step after `n` steps is `n + 1` steps. */
  lemma {:induction false} AxisAfterShift(s: real, g: real, speed: real, n: nat)
    ensures StepAxis(AxisAfter(s, g, speed, n), g, speed) == AxisAfter(s, g, speed, n + 1)
    decreases n
  {
    if n > 0 {
      AxisAfterShift(StepAxis(s, g, speed), g, speed, n - 1);
    }
  }

  /* ------------------------------------------------------------ updateThings */

  /** `goal && (goal.x !== x || goal.y !== y)`: the thing has a goal it is not
      standing on. */
  predicate Moving(thing: Record)
  {
    var goal := Get(thing, Goal);
    goal.Point? && (Get(thing, X) != Num(goal.x) || Get(thing, Y) != Num(goal.y))
  }

  /** `{ ...thing, x, y }` after one step, without `goal` when the step is
      done. */
  function Moved(thing: Record): Record
    requires Moving(thing) && Movable(thing)
  {
    var goal := Get(thing, Goal);
    var step := GetCloserToGoal(thing, goal.x, goal.y);
    var moved := thing[X := Num(step.x)][Y := Num(step.y)];
    if step.done then moved - {Goal} else moved
  }

  /** The moved record holds the step's coordinates, has no `goal` exactly
      when the step is done, and keeps every other field, its id among them. */
  lemma MovedFields(thing: Record)
    requires Moving(thing) && Movable(thing)
    ensures var r, step := Moved(thing), GetCloserToGoal(thing, Get(thing, Goal).x, Get(thing, Goal).y);
      && Get(r, X) == Num(step.x) && Get(r, Y) == Num(step.y)
      && (Get(r, Goal) == Undefined <==> step.done)
      && (!step.done ==> Get(r, Goal) == Get(thing, Goal))
      && forall p :: p != X && p != Y && p != Goal ==> Get(r, p) == Get(thing, p)
  {
  }

  /** Every moving thing the tick sees, joined with its catalog entry, can
      step. */
  predicate AllMovable(things: seq<Record>)
  {
    forall i :: 0 <= i < |things| && Moving(things[i]) ==> Movable(things[i]) && Get(things[i], Id).Str?
  }

  /** The updates `updateThings` issues for a list of things, in order. */
  function Moves(things: seq<Record>): (ms: seq<Record>)
    requires AllMovable(things)
    ensures HasIds(ms)
  {
    if things == [] then []
    else if Moving(things[0]) then [Moved(things[0])] + Moves(things[1..])
    else Moves(things[1..])
  }

  /** A move keeps the thing's id. */
  lemma MovedId(thing: Record)
    requires Moving(thing) && Movable(thing)
    ensures Get(Moved(thing), Id) == Get(thing, Id)
  {
  }

  /** Each update is the move of a moving thing of the list. */
  lemma {:induction false} MovesFrom(things: seq<Record>, j: nat) returns (i: nat)
    requires AllMovable(things) && j < |Moves(things)|
    ensures i < |things| && Moving(things[i]) && Movable(things[i]) && Moves(things)[j] == Moved(things[i])
  {
    var rest := things[1..];
    if Moving(things[0]) && j == 0 {
      i := 0;
    } else {
      var j' := if Moving(things[0]) then j - 1 else j;
      assert Moves(things)[j] == Moves(rest)[j'];
      var i' := MovesFrom(rest, j');
      assert things[i' + 1] == rest[i'];
      i := i' + 1;
    }
  }

  /** Each update is the move of a moving thing and names that thing by its
      id. */
  lemma MovesFromMovers(things: seq<Record>, j: nat)
    requires AllMovable(things) && j < |Moves(things)|
    ensures exists i ::
      && 0 <= i < |things| && Moving(things[i])
      && Moves(things)[j] == Moved(things[i]) && Get(Moves(things)[j], Id) == Get(things[i], Id)
  {
    var i := MovesFrom(things, j);
    MovedId(things[i]);
  }

  /** The moves of a list grown by one thing. */
  lemma {:induction false} MovesSnoc(things: seq<Record>, i: nat)
    requires AllMovable(things) && i < |things|
    ensures AllMovable(things[..i]) && AllMovable(things[..i + 1])
    ensures Moves(things[..i + 1]) == Moves(things[..i]) + (if Moving(things[i]) then [Moved(things[i])] else [])
    decreases i
  {
    assert things[..i + 1][0] == things[0];
    if i > 0 {
      MovesSnoc(things[1..], i - 1);
      assert things[..i + 1][1..] == things[1..][..i];
      assert things[..i][1..] == things[1..][..i - 1];
      assert things[..i][0] == things[0];
    }
  }

  /** The store can run a tick: every moving thing, as the tick sees it, can
      step. */
  ghost predicate Steppable(items: Table)
    requires items.Valid()
  {
    AllMovable(GetArray(items, None, true))
  }

  /** `this.items` after `updateThings()`: the moves of the joined snapshot,
      each a replacing update. */
  function Tick(items: Table): Table
    requires items.Valid() && Steppable(items)
  {
    Updated(items, Moves(GetArray(items, None, true)), true)
  }

  /** Things whose ids agree are the same record. */
  predicate IdsDetermine(things: seq<Record>)
  {
    forall i, j :: 0 <= i < |things| && 0 <= j < |things| && Get(things[i], Id) == Get(things[j], Id) ==>
      things[i] == things[j]
  }

  /** Replacing with the moves of a list is replacing with the first thing's
      move, if it moves, and then with the moves of the rest. */
  lemma MovesStep(items: Table, things: seq<Record>)
    requires AllMovable(things) && things != []
    ensures AllMovable(things[1..])
    ensures Updated(items, Moves(things), true) ==
      if Moving(things[0]) then Updated(UpdateOne(items, Moved(things[0]), true), Moves(things[1..]), true)
      else Updated(items, Moves(things[1..]), true)
  {
    assert forall i :: 0 <= i < |things[1..]| ==> things[1..][i] == things[i + 1];
    if Moving(things[0]) {
      var ms := Moves(things);
      assert ms == [Moved(things[0])] + Moves(things[1..]);
      assert ms[0] == Moved(things[0]) && ms[1..] == Moves(things[1..]);
    }
  }

  /** The rest of a list whose ids determine its things is such a list. */
  lemma IdsDetermineRest(things: seq<Record>)
    requires IdsDetermine(things) && things != []
    ensures IdsDetermine(things[1..])
  {
    var rest := things[1..];
    forall i, j | 0 <= i < |rest| && 0 <= j < |rest| && Get(rest[i], Id) == Get(rest[j], Id) ensures rest[i] == rest[j] {
      assert rest[i] == things[i + 1] && rest[j] == things[j + 1];
    }
  }

  /** A thing is stored as its sanitized move. */
  ghost predicate StoredMoved(t: Table, thing: Record)
    requires Moving(thing) && Movable(thing) && Get(thing, Id).Str?
  {
    Get(thing, Id).s in t.entries && t.entries[Get(thing, Id).s] == Canonical(Moved(thing))
  }

  /** Replacing with the moves of a list whose ids determine its things stores
      each moving thing as its sanitized move: a later move under the same id
      is the same thing's move again. */
  lemma {:induction false} MovesStoredAt(items: Table, things: seq<Record>, i: int, thing: Record)
    requires AllMovable(things) && IdsDetermine(things)
    requires 0 <= i < |things| && things[i] == thing && Moving(thing)
    ensures Movable(thing) && Get(thing, Id).Str?
    ensures StoredMoved(Updated(items, Moves(things), true), thing)
    decreases |things|, 1
  {
    if i == 0 {
      MovesHeadStored(items, things, thing);
    } else {
      var next := MovesTail(items, things);
      assert things[1..][i - 1] == thing;
      MovesStoredAt(next, things[1..], i - 1, thing);
    }
  }

  /** Replacing with the moves of a list is replacing with those of its rest,
      starting from the table the first thing's move leaves. */
  lemma MovesTail(items: Table, things: seq<Record>) returns (next: Table)
    requires AllMovable(things) && IdsDetermine(things) && things != []
    ensures AllMovable(things[1..]) && IdsDetermine(things[1..])
    ensures next == if Moving(things[0]) then UpdateOne(items, Moved(things[0]), true) else items
    ensures Updated(items, Moves(things), true) == Updated(next, Moves(things[1..]), true)
  {
    next := if Moving(things[0]) then UpdateOne(items, Moved(things[0]), true) else items;
    MovesStep(items, things);
    IdsDetermineRest(things);
  }

  /** The first thing, when it moves, is stored as its move. */
  lemma {:induction false} MovesHeadStored(items: Table, things: seq<Record>, thing: Record)
    requires AllMovable(things) && IdsDetermine(things)
    requires things != [] && things[0] == thing && Moving(thing)
    ensures Movable(thing) && Get(thing, Id).Str?
    ensures StoredMoved(Updated(items, Moves(things), true), thing)
    decreases |things|, 0
  {
    var rest := things[1..];
    var next := MovesTail(items, things);
    var id := Get(thing, Id).s;
    if j :| 0 <= j < |rest| && Moving(rest[j]) && Get(rest[j], Id) == Str(id) {
      assert rest[j] == thing by {
        assert rest[j] == things[j + 1];
      }
      MovesStoredAt(next, rest, j, thing);
    } else {
      assert next == UpdateOne(items, Moved(thing), true);
      ReplacedByMove(items, thing);
      MovesFrameAt(next, rest, id);
    }
  }

  /** A replacing update with a thing's move stores the sanitized move under
      the thing's id. */
  lemma ReplacedByMove(items: Table, thing: Record)
    requires Moving(thing) && Movable(thing) && Get(thing, Id).Str?
    ensures StoredMoved(UpdateOne(items, Moved(thing), true), thing)
  {
    var m := Moved(thing);
    assert Get(m, Id) == Get(thing, Id) by {
      MovedFields(thing);
    }
    assert map[] + m == m;
  }

  /** Replacing with the moves of a list leaves an entry that no moving thing
      names as it was. */
  lemma {:induction false} MovesFrameAt(items: Table, things: seq<Record>, k: string)
    requires AllMovable(things) && k in items.entries
    requires forall i :: 0 <= i < |things| && Moving(things[i]) ==> Get(things[i], Id) != Str(k)
    ensures var t := Updated(items, Moves(things), true);
      k in t.entries && t.entries[k] == items.entries[k]
    decreases |things|
  {
    if things != [] {
      var rest := things[1..];
      MovesStep(items, things);
      assert forall i :: 0 <= i < |rest| ==> rest[i] == things[i + 1];
      if Moving(things[0]) {
        MovedFields(things[0]);
        MovesFrameAt(UpdateOne(items, Moved(things[0]), true), rest, k);
      } else {
        MovesFrameAt(items, rest, k);
      }
    }
  }

  /** Every moving thing of the list names an entry of the table. */
  predicate MovingStored(items: Table, things: seq<Record>)
  {
    forall i :: 0 <= i < |things| && Moving(things[i]) ==> Get(things[i], Id).Str? && Get(things[i], Id).s in items.entries
  }

  /** When every moving thing's id is already a key, the moves add no key. */
  lemma {:induction false} MovesKeys(items: Table, things: seq<Record>)
    requires AllMovable(things) && MovingStored(items, things)
    ensures Updated(items, Moves(things), true).entries.Keys == items.entries.Keys
    decreases |things|
  {
    if things != [] {
      var next := MovesKeysHead(items, things);
      MovesKeys(next, things[1..]);
    }
  }

  /** The first thing's move, if any, rewrites a stored entry: the table it
      leaves has the same keys, and the rest of the list names its entries. */
  lemma MovesKeysHead(items: Table, things: seq<Record>) returns (next: Table)
    requires AllMovable(things) && MovingStored(items, things) && things != []
    ensures AllMovable(things[1..]) && MovingStored(next, things[1..])
    ensures next.entries.Keys == items.entries.Keys
    ensures Updated(items, Moves(things), true) == Updated(next, Moves(things[1..]), true)
  {
    next := if Moving(things[0]) then UpdateOne(items, Moved(things[0]), true) else items;
    MovesStep(items, things);
    if Moving(things[0]) {
      assert Get(Moved(things[0]), Id) == Get(things[0], Id) by {
        MovedFields(things[0]);
      }
      StoredKeys(items, Moved(things[0]));
    }
    MovingStoredRest(items, next, things);
  }

  /** Rewriting a stored entry adds no key. */
  lemma StoredKeys(items: Table, partial: Record)
    requires Get(partial, Id).Str? && Get(partial, Id).s in items.entries
    ensures UpdateOne(items, partial, true).entries.Keys == items.entries.Keys
  {
  }

  /** The rest of a list that names entries of a table names entries of any
      table with the same keys. */
  lemma MovingStoredRest(items: Table, next: Table, things: seq<Record>)
    requires MovingStored(items, things) && things != []
    requires next.entries.Keys == items.entries.Keys
    ensures MovingStored(next, things[1..])
  {
    var rest := things[1..];
    forall i | 0 <= i < |rest| && Moving(rest[i]) ensures Get(rest[i], Id).Str? && Get(rest[i], Id).s in next.entries {
      assert rest[i] == things[i + 1];
    }
  }

  /** The snapshot lists each stored record, joined with its catalog entry,
      under its key. */
  lemma Snapshot(items: Table)
    requires items.Valid() && IdsMatchKeys(items)
    ensures var things := GetArray(items, None, true);
      && |things| == |items.keys|
      && (forall i :: 0 <= i < |things| ==> things[i] == Aggregate(items.entries[items.keys[i]]))
      && (forall i :: 0 <= i < |things| ==> Get(things[i], Id) == Str(items.keys[i]))
      && IdsDetermine(things)
  {
    var things := GetArray(items, None, true);
    forall i | 0 <= i < |things| ensures Get(things[i], Id) == Str(items.keys[i]) {
      assert things[i] == View(items.entries[items.keys[i]], true);
    }
  }

  /** Joining in the catalog changes neither the goal nor the position. */
  lemma MovingAggregate(r: Record)
    ensures Moving(Aggregate(r)) <==> Moving(r)
  {
    assert Goal in ThingProperties && X in ThingProperties && Y in ThingProperties;
  }

  /** A tick rewrites exactly the moving things: each becomes the sanitized
      moved record (its `x` and `y` the step's, its `goal` dropped when the
      step is done); every other entry, including a thing standing on its
      goal, is left as it was. No entry is added or removed. */
  lemma TickEntries(items: Table)
    requires items.Valid() && IdsMatchKeys(items) && Steppable(items)
    ensures Tick(items).entries.Keys == items.entries.Keys
    ensures forall k :: k in items.entries ==> TickedEntry(items, k)
  {
    Snapshot(items);
    MovesKeys(items, GetArray(items, None, true));
    forall k | k in items.entries ensures TickedEntry(items, k) {
      TickEntryAt(items, k);
    }
  }

  /** The entry under `k` after a tick: the sanitized move of the joined
      record when it moves, the entry itself otherwise. */
  ghost predicate TickedEntry(items: Table, k: string)
    requires items.Valid() && IdsMatchKeys(items) && Steppable(items) && k in items.entries
  {
    SteppableAt(items, k);
    var t := Tick(items);
    k in t.entries &&
    t.entries[k] == if Moving(items.entries[k]) then Canonical(Moved(Aggregate(items.entries[k]))) else items.entries[k]
  }

  /** A stored thing that moves can step once joined with its type. */
  lemma SteppableAt(items: Table, k: string)
    requires items.Valid() && Steppable(items) && k in items.entries
    ensures Moving(items.entries[k]) ==> Moving(Aggregate(items.entries[k])) && Movable(Aggregate(items.entries[k]))
  {
    MovingAggregate(items.entries[k]);
    var i :| 0 <= i < |items.keys| && items.keys[i] == k;
    assert GetArray(items, None, true)[i] == Aggregate(items.entries[k]);
  }

  lemma TickEntryAt(items: Table, k: string)
    requires items.Valid() && IdsMatchKeys(items) && Steppable(items) && k in items.entries
    ensures TickedEntry(items, k)
  {
    var things := GetArray(items, None, true);
    Snapshot(items);
    MovingAggregate(items.entries[k]);
    var i :| 0 <= i < |items.keys| && items.keys[i] == k;
    if Moving(items.entries[k]) {
      MovesStoredAt(items, things, i, things[i]);
    } else {
      forall j | 0 <= j < |things| && Moving(things[j]) ensures Get(things[j], Id) != Str(k) {
        MovingAggregate(items.entries[items.keys[j]]);
      }
      MovesFrameAt(items, things, k);
    }
  }

  /** `updateThings()`: every thing of the joined snapshot that has a goal it
      is not standing on takes one step and is written back with a replacing
      update. */
  method UpdateThings(store: Store)
    requires store.Valid() && Steppable(store.items)
    modifies store
    ensures store.items == Tick(old(store.items)) && store.selected == old(store.selected)
    ensures store.Valid()
  {
    var things := GetArray(store.items, None, true);
    StepThings(store, things);
    UpdatedValid(old(store.items), Moves(things), true);
  }

  /** One more thing of the snapshot: a moving thing adds a replacing update
      with its move, any other adds nothing. */
  lemma TickStep(t0: Table, things: seq<Record>, i: nat)
    requires AllMovable(things) && i < |things|
    ensures AllMovable(things[..i]) && AllMovable(things[..i + 1])
    ensures var prev := Updated(t0, Moves(things[..i]), true);
      Updated(t0, Moves(things[..i + 1]), true) ==
        if Moving(things[i]) then Updated(prev, [Moved(things[i])], true) else prev
  {
    MovesSnoc(things, i);
    if Moving(things[i]) {
      UpdatedAppend(t0, Moves(things[..i]), [Moved(things[i])], true);
    } else {
      assert Moves(things[..i]) + [] == Moves(things[..i]);
    }
  }

  /** The `forEach` of `updateThings` over the snapshot. */
  method StepThings(store: Store, things: seq<Record>)
    requires AllMovable(things)
    modifies store
    ensures store.items == Updated(old(store.items), Moves(things), true) && store.selected == old(store.selected)
  {
    var i := 0;
    while i < |things|
      invariant 0 <= i <= |things|
      invariant store.selected == old(store.selected)
      invariant store.items == Updated(old(store.items), Moves(things[..i]), true)
    {
      TickStep(old(store.items), things, i);
      StepThing(store, things[i]);
      i := i + 1;
    }
    assert things[..i] == things;
  }

  /** The callback of that `forEach` for one thing: a thing with a goal it is
      not standing on takes a step and is written back with a replacing
      update; any other thing is left alone. */
  method StepThing(store: Store, thing: Record)
    requires Moving(thing) ==> Movable(thing) && Get(thing, Id).Str?
    modifies store
    ensures store.items == if Moving(thing) then Updated(old(store.items), [Moved(thing)], true) else old(store.items)
    ensures store.selected == old(store.selected)
  {
    var goal := Get(thing, Goal);
    if goal.Point? && (Get(thing, X) != Num(goal.x) || Get(thing, Y) != Num(goal.y)) {
      var step := GetCloserToGoal(thing, goal.x, goal.y);
      var updated := thing[X := Num(step.x)][Y := Num(step.y)];
      if step.done {
        updated := updated - {Goal};
      }
      assert updated == Moved(thing);
      store.Update([updated], true);
    }
  }

  /* --------------------------------------------------------------- handleIntent */

  /** `Math.max(lo, Math.min(hi, v))`. */
  function Clamp(v: real, lo: real, hi: real): (r: real)
    ensures lo <= hi ==> lo <= r <= hi
    ensures lo <= v <= hi ==> r == v
    ensures v < lo ==> r == lo
    ensures lo <= hi && hi < v ==> r == hi
  {
    Max(lo, Min(hi, v))
  }

  /** Clamping a clamped coordinate changes nothing. */
  lemma ClampIdempotent(v: real, lo: real, hi: real)
    requires lo <= hi
    ensures Clamp(Clamp(v, lo, hi), lo, hi) == Clamp(v, lo, hi)
  {
  }

  /** The goal a click at `(cx, cy)` gives in a world of the given size. */
  function ClampedGoal(width: real, height: real, cx: real, cy: real): (g: Value)
    ensures g.Point?
    ensures width >= 1.0 ==> 0.0 <= g.x <= width - 1.0 && (0.0 <= cx <= width - 1.0 ==> g.x == cx)
    ensures height >= 1.0 ==> 0.0 <= g.y <= height - 1.0 && (0.0 <= cy <= height - 1.0 ==> g.y == cy)
  {
    Point(Clamp(cx, 0.0, width - 1.0), Clamp(cy, 0.0, height - 1.0))
  }

  /** `things.map(thing => ({ ...thing, goal }))`. */
  function WithGoal(things: seq<Record>, goal: Value): (r: seq<Record>)
    ensures |r| == |things|
    ensures forall i :: 0 <= i < |r| ==> r[i] == things[i][Goal := goal]
  {
    seq(|things|, i requires 0 <= i < |things| => things[i][Goal := goal])
  }

  /** Merging in partials that all carry the same goal leaves that goal on
      every entry they name: the last partial naming an id sets it. */
  lemma {:induction false} MergedGoal(items: Table, partials: seq<Record>, goal: Value, k: string)
    requires HasIds(partials) && k in IdsOf(partials)
    requires forall i :: 0 <= i < |partials| ==> Goal in partials[i] && partials[i][Goal] == goal
    ensures var t := Updated(items, partials, false);
      k in t.entries && Get(t.entries[k], Goal) == goal
    decreases |partials|
  {
    var rest := partials[1..];
    var next := UpdateOne(items, partials[0], false);
    IdsOfCons(partials);
    if k in IdsOf(rest) {
      MergedGoal(next, rest, goal, k);
    } else {
      assert Goal in ThingProperties;
      UpdatedFrame(next, rest, false);
    }
  }

  /** `handleIntent(coordinates, things)` in a world `width` by `height`. */
  method HandleIntent(store: Store, width: real, height: real, cx: real, cy: real, things: seq<Record>)
    requires store.Valid() && HasIds(things)
    modifies store
    ensures store.Valid()
    ensures store.items == Updated(old(store.items), WithGoal(things, ClampedGoal(width, height, cx, cy)), false)
    ensures store.selected == old(store.selected)
  {
    var goal := Point(Clamp(cx, 0.0, width - 1.0), Clamp(cy, 0.0, height - 1.0));
    var updatedThings := WithGoal(things, goal);
    store.Update(updatedThings, false);
  }

  /** After `handleIntent` every given thing is stored with the clamped goal,
      inside `[0, width - 1] x [0, height - 1]`. */
  lemma IntentGoals(items: Table, width: real, height: real, cx: real, cy: real, things: seq<Record>)
    requires HasIds(things) && width >= 1.0 && height >= 1.0
    ensures var goal := ClampedGoal(width, height, cx, cy);
      var t := Updated(items, WithGoal(things, goal), false);
      && 0.0 <= goal.x <= width - 1.0 && 0.0 <= goal.y <= height - 1.0
      && forall i :: 0 <= i < |things| ==>
        Get(things[i], Id).s in t.entries && Get(t.entries[Get(things[i], Id).s], Goal) == goal
  {
    var goal := ClampedGoal(width, height, cx, cy);
    var ps := WithGoal(things, goal);
    assert HasIds(ps) by {
      forall i | 0 <= i < |ps| ensures Get(ps[i], Id).Str? {
        assert Get(ps[i], Id) == Get(things[i], Id);
      }
    }
    forall i | 0 <= i < |things|
      ensures var t := Updated(items, ps, false);
        Get(things[i], Id).s in t.entries && Get(t.entries[Get(things[i], Id).s], Goal) == goal
    {
      assert IdsOf(ps)[i] == Get(things[i], Id).s;
      MergedGoal(items, ps, goal, Get(things[i], Id).s);
    }
  }

  /* ---------------------------------------------------------------- initStore */

  /** `initStore()`: the world's things are added to the store, each under
      one of the fresh ids `ids` that `uuid()` draws. */
  method InitStore(store: Store, ids: seq<string>)
    requires |ids| == |Things()| && Distinct(ids)
    requires forall id :: id in ids ==> id !in store.items.entries
    modifies store
    ensures store.items == Added(old(store.items), Things(), ids) && store.selected == old(store.selected)
    ensures old(store.Valid()) ==> store.Valid()
  {
    ThingsCarryNoId();
    store.Add(Things(), ids);
  }

  /** On the store `initStore` fills from empty, the wood tile at the origin
      follows the gold mine, so as written every click at `x >= 0` that
      misses the gold mine's 3 x 3 footprint throws in `getAtCoordinates`. */
  lemma WorldClickThrows(ids: seq<string>, selected: Table, x: real, y: real)
    requires |ids| == |Things()| && Distinct(ids)
    requires 0.0 <= x && !(3.0 <= x < 6.0 && 5.0 <= y < 8.0)
    ensures Added(Empty, Things(), ids).Valid()
    ensures GetAtCoordinatesAsWritten(Added(Empty, Things(), ids), selected, x, y, true) == Thrown
  {
    OriginTileSecond();
    AddedToEmpty(Things(), ids, 0);
    AddedToEmpty(Things(), ids, 1);
    var vs := Added(Empty, Things(), ids).Values();
    GoldmineMissed(x, y);
    StampedLookup(ids[0], Goldmine0, x, y);
    OriginWoodRead(x, y);
    StampedLookup(ids[1], WoodTile(0.0, 0.0), x, y);
    ThrowsAtSecond(vs, x, y);
  }

  /** A click off the gold mine's footprint neither matches nor throws on it. */
  lemma GoldmineMissed(x: real, y: real)
    requires !(3.0 <= x < 6.0 && 5.0 <= y < 8.0)
    ensures Id !in Goldmine0 && !Hits(Goldmine0, x, y) && !ReadsMissingEntry(Goldmine0, x, y)
  {
    assert TypeOf(Get(Goldmine0, Type)) == Catalog(Goldmine);
  }

  /** A click at `x >= 0` reads the missing catalog entry of the wood tile at
      the origin. */
  lemma OriginWoodRead(x: real, y: real)
    requires 0.0 <= x
    ensures Id !in WoodTile(0.0, 0.0) && ReadsMissingEntry(WoodTile(0.0, 0.0), x, y)
  {
  }

  /* ---------------------------------------------------------------- selection */

  /** `unselectAllThings()`: the selection is emptied. */
  method UnselectAllThings(store: Store)
    requires store.Valid()
    modifies store
    ensures store.Valid() && store.selected == Empty && store.items == old(store.items)
  {
    store.Unselect(None);
  }

  /** `handleSelectThing(thing)` for a clicked thing: a thing marked
      `selected` is unselected; any other becomes the whole selection. */
  method HandleSelectThing(store: Store, thing: Record)
    requires store.Valid() && Get(thing, Id).Str?
    modifies store
    ensures store.Valid() && store.items == old(store.items)
    ensures Truthy(Get(thing, Selected)) ==> store.selected == Deleted(old(store.selected), [Get(thing, Id).s])
    ensures !Truthy(Get(thing, Selected)) ==>
      store.selected.keys == [Get(thing, Id).s] && store.selected.entries == map[Get(thing, Id).s := map[Id := Get(thing, Id)]]
  {
    var id := Get(thing, Id).s;
    if Truthy(Get(thing, Selected)) {
      store.Unselect(Some([id]));
    } else {
      UnselectAllThings(store);
      store.Select([id]);
    }
  }

  /** The store never sets a `selected` field: a record the store holds
      after an `update` has none, and the `{ id }` a selection entry merges
      in adds none. So a click on an updated thing always selects it alone. */
  lemma ClickedThingIsNotSelected(items: Table, selected: Table, x: real, y: real)
    requires items.Valid() && SelectionShape(selected)
    requires forall k :: k in items.entries ==> Selected !in items.entries[k]
    ensures var hit := GetAtCoordinates(items, selected, x, y, true);
      hit.Some? ==> !Truthy(Get(hit.value, Selected))
  {
  }

  /** Sanitizing drops `selected`. */
  lemma CanonicalHasNoSelected(r: Record)
    ensures Selected !in Canonical(r)
  {
  }

  /* ------------------------------------------------------------------ gameLoop */

  /** The `cycleDelay` of `gameLoop`: `MAX_FPS`, shortened by however much the
      last cycle overran it, but never below one millisecond. */
  function CycleDelay(timeDelta: real): (d: real)
    ensures 1.0 <= d <= MAX_FPS
    ensures timeDelta <= MAX_FPS ==> d == MAX_FPS
    ensures MAX_FPS < timeDelta <= 2.0 * MAX_FPS - 1.0 ==> d + (timeDelta - MAX_FPS) == MAX_FPS
    ensures timeDelta >= 2.0 * MAX_FPS - 1.0 ==> d == 1.0
  {
    var cycleDelay := MAX_FPS;
    if timeDelta > cycleDelay then Max(1.0, cycleDelay - (timeDelta - cycleDelay)) else cycleDelay
  }

  /** A longer last cycle never lengthens the next delay. */
  lemma CycleDelayMonotone(a: real, b: real)
    requires a <= b
    ensures CycleDelay(b) <= CycleDelay(a)
  {
  }
}
