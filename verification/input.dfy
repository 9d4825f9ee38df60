/** Player movement from the keyboard (internal/systems/input.go): one batch
    of key events becomes a movement delta and an autopilot toggle, applied
    to every entity that has both a PlayerControl and a Position. */
module Input {
  import opened Wrappers
  import opened Points
  import opened Grid
  import opened Ecs
  import opened Components

  /** The component names the systems query the registry with. The
      repository refers to `components.NamePlayerControl` and
      `components.NamePosition` without defining them. */
  const NamePlayerControl := "PlayerControl"
  const NamePosition := "Position"

  /** What the registry's stores hold in this model: the two components
      the systems read, or anything else. */
  datatype Component = PositionOf(pos: Position) | ControlOf(ctrl: PlayerControl) | OtherComponent

  /** The stores hold the type their name promises; Go's type assertions
      panic otherwise. */
  predicate WellTyped(w: World<Component>) {
    (NamePosition in w.stores ==> forall e | e in w.stores[NamePosition] :: w.stores[NamePosition][e].PositionOf?) &&
    (NamePlayerControl in w.stores ==>
       forall e | e in w.stores[NamePlayerControl] :: w.stores[NamePlayerControl][e].ControlOf?)
  }

  /** `core.InputEvent`, and the key constants of internal/core/types.go
      the systems and the engine compare against. */
  datatype InputEvent = InputEvent(key: char, code: int, quit: bool)

  const KeyW := 'w'
  const KeyA := 'a'
  const KeyS := 's'
  const KeyD := 'd'
  const KeyP := 'p'
  const KeyQ := 'q'

  /** The outcome of reading one batch of events. */
  datatype Intent = Intent(dx: int, dy: int, toggle: bool)

  /** The event loop at the top of `ProcessPlayerInput`, one event at a time
      from the first. */
  function ReadEvents(events: seq<InputEvent>): (r: Intent)
    ensures -1 <= r.dx <= 1 && -1 <= r.dy <= 1
    decreases |events|
  {
    if |events| == 0 then Intent(0, 0, false)
    else
      var r := ReadEvents(events[..|events| - 1]);
      var k := events[|events| - 1].key;
      if k == KeyW then r.(dy := -1)
      else if k == KeyS then r.(dy := 1)
      else if k == KeyA then r.(dx := -1)
      else if k == KeyD then r.(dx := 1)
      else if k == KeyP then r.(toggle := true)
      else r
  }

  /** The last event, searching from the end, whose key is one of `keys`. */
  function LastOf(events: seq<InputEvent>, keys: set<char>): (r: Option<char>)
    ensures r.Some? ==> r.value in keys
    ensures r.None? <==> forall i :: 0 <= i < |events| ==> events[i].key !in keys
    decreases |events|
  {
    if |events| == 0 then None
    else if events[|events| - 1].key in keys then Some(events[|events| - 1].key)
    else LastOf(events[..|events| - 1], keys)
  }

  /** The delta one axis gets from the last key that speaks about it. */
  function AxisOf(last: Option<char>, minus: char, plus: char): int {
    match last
    case None => 0
    case Some(k) => if k == minus then -1 else if k == plus then 1 else 0
  }

  /** Reading events forwards agrees with looking back for the deciding
      key: the last W or S decides dy, the last A or D decides dx, and any P
      at all sets the toggle. */
  lemma {:induction false} ReadEventsLastWins(events: seq<InputEvent>)
    ensures ReadEvents(events).dy == AxisOf(LastOf(events, {KeyW, KeyS}), KeyW, KeyS)
    ensures ReadEvents(events).dx == AxisOf(LastOf(events, {KeyA, KeyD}), KeyA, KeyD)
    ensures ReadEvents(events).toggle <==> exists i :: 0 <= i < |events| && events[i].key == KeyP
    decreases |events|
  {
    if |events| > 0 {
      var init := events[..|events| - 1];
      ReadEventsLastWins(init);
      if ReadEvents(events).toggle && events[|events| - 1].key != KeyP {
        var i :| 0 <= i < |init| && init[i].key == KeyP;
        assert events[i] == init[i];
      }
      if exists i :: 0 <= i < |events| && events[i].key == KeyP {
        var i :| 0 <= i < |events| && events[i].key == KeyP;
        if i < |init| {
          assert init[i] == events[i];
        }
      }
    }
  }

  /** What one turn makes of an entity's two components. The toggle flips
      the autopilot and clears the path; with the autopilot on or no
      movement key the position stays; otherwise the entity steps to
      (x+dx, y+dy) when that cell is on the map and its tile is walkable. */
  function Turn(c: PlayerControl, p: Position, intent: Intent, m: Map): (r: (PlayerControl, Position))
    requires Valid(m)
  {
    var c' := if intent.toggle then c.(autopilot := !c.autopilot, currentPath := []) else c;
    if c'.autopilot || (intent.dx == 0 && intent.dy == 0) then (c', p)
    else
      var nx, ny := p.x + intent.dx, p.y + intent.dy;
      if 0 <= nx < m.width && 0 <= ny < m.height && TileAt(m, nx, ny).walkable then (c', Position(nx, ny))
      else (c', p)
  }

  /** What a turn does, in the terms the systems promise: one or more P
      presses flip the switch once and drop the path; the status is kept;
      the entity moves by the intent exactly when the autopilot is (now)
      off, some movement key was pressed, and the target cell is walkable. */
  lemma TurnEffect(c: PlayerControl, p: Position, intent: Intent, m: Map)
    requires Valid(m)
    ensures var (c', p') := Turn(c, p, intent, m);
            c'.autopilot == (c.autopilot != intent.toggle) &&
            c'.currentPath == (if intent.toggle then [] else c.currentPath) &&
            c'.status == c.status &&
            var moves := !c'.autopilot && (intent.dx != 0 || intent.dy != 0) &&
                         IsWalkable(m, p.x + intent.dx, p.y + intent.dy);
            p' == if moves then Position(p.x + intent.dx, p.y + intent.dy) else p
  {
  }

  /** The entity has both components the systems look for. */
  predicate Controlled(w: World<Component>, e: Entity) {
    GetComponent(w, e, NamePlayerControl).Some? && GetComponent(w, e, NamePosition).Some?
  }

  /** One entity's turn of the loop in `ProcessPlayerInput`. An entity
      missing either component is skipped; otherwise its components become
      what `Turn` makes of them, and nothing else changes. */
  function StepEntity(w: World<Component>, e: Entity, intent: Intent, m: Map): (r: World<Component>)
    requires Valid(m) && WellTyped(w)
    ensures WellTyped(r)
    ensures !Controlled(w, e) ==> r == w
    ensures Controlled(w, e) ==>
              var t := Turn(GetComponent(w, e, NamePlayerControl).value.ctrl,
                            GetComponent(w, e, NamePosition).value.pos, intent, m);
              GetComponent(r, e, NamePlayerControl) == Some(ControlOf(t.0)) &&
              GetComponent(r, e, NamePosition) == Some(PositionOf(t.1))
    ensures forall e', n :: e' != e ==> GetComponent(r, e', n) == GetComponent(w, e', n)
    ensures forall n :: n != NamePosition && n != NamePlayerControl ==> GetComponent(r, e, n) == GetComponent(w, e, n)
  {
    match (GetComponent(w, e, NamePlayerControl), GetComponent(w, e, NamePosition))
    case (Some(ControlOf(c)), Some(PositionOf(p))) =>
      var (c', p') := Turn(c, p, intent, m);
      AddComponent(AddComponent(w, e, NamePlayerControl, ControlOf(c')), e, NamePosition, PositionOf(p'))
    case _ => w
  }

  /** Entity e of r is as its own turn leaves it in w. */
  ghost predicate Turned(w: World<Component>, r: World<Component>, e: Entity, intent: Intent, m: Map)
    requires Valid(m) && WellTyped(w)
  {
    forall n :: GetComponent(r, e, n) == GetComponent(StepEntity(w, e, intent, m), e, n)
  }

  /** Entity e of r is as it is in w. */
  ghost predicate Untouched(w: World<Component>, r: World<Component>, e: Entity) {
    forall n :: GetComponent(r, e, n) == GetComponent(w, e, n)
  }

  /** `ProcessPlayerInput`: read the batch, then give every entity of the
      PlayerControl store its turn, in the store's (unspecified) order. As
      each turn touches only its own entity, every entity ends up exactly
      as its own turn leaves it. */
  method ProcessPlayerInput(w: World<Component>, events: seq<InputEvent>, m: Map) returns (r: World<Component>)
    requires Valid(m) && WellTyped(w)
    ensures WellTyped(r)
    ensures forall e, n :: GetComponent(r, e, n) == GetComponent(StepEntity(w, e, ReadEvents(events), m), e, n)
  {
    var intent := ReadEvents(events);
    var entities := GetEntitiesWith(w, NamePlayerControl);
    var list := if entities.Some? then entities.value else [];
    r := w;
    var i := 0;
    while i < |list|
      invariant 0 <= i <= |list| && WellTyped(r)
      invariant forall e :: e in list[..i] ==> Turned(w, r, e, intent, m)
      invariant forall e :: e !in list[..i] ==> Untouched(w, r, e)
    {
      var e := list[i];
      assert e !in list[..i];
      TurnKeeps(w, r, e, intent, m, list[..i]);
      r := StepEntity(r, e, intent, m);
      assert list[..i + 1] == list[..i] + [e];
      i := i + 1;
    }
    assert list[..|list|] == list;
    forall e | e !in list
      ensures Turned(w, r, e, intent, m)
    {
      assert GetComponent(w, e, NamePlayerControl).None?;
    }
    forall e, n
      ensures GetComponent(r, e, n) == GetComponent(StepEntity(w, e, intent, m), e, n)
    {
      assert Turned(w, r, e, intent, m);
    }
  }

  /** One turn of the loop keeps its invariant: the entities that had their
      turn are as their turns leave them, the others as they were. */
  lemma TurnKeeps(w: World<Component>, r: World<Component>, e: Entity, intent: Intent, m: Map, done: seq<Entity>)
    requires Valid(m) && WellTyped(w) && WellTyped(r) && e !in done
    requires forall e' :: e' in done ==> Turned(w, r, e', intent, m)
    requires forall e' :: e' !in done ==> Untouched(w, r, e')
    ensures var r' := StepEntity(r, e, intent, m);
            (forall e' :: e' in done + [e] ==> Turned(w, r', e', intent, m)) &&
            (forall e' :: e' !in done + [e] ==> Untouched(w, r', e'))
  {
    var r' := StepEntity(r, e, intent, m);
    SameTurn(w, r, e, intent, m);
    forall e' | e' in done + [e]
      ensures Turned(w, r', e', intent, m)
    {
      if e' != e {
        assert Turned(w, r, e', intent, m);
      }
    }
    forall e' | e' !in done + [e]
      ensures Untouched(w, r', e')
    {
      assert Untouched(w, r, e');
    }
  }

  /** An entity's turn depends only on its own components. */
  lemma SameTurn(w: World<Component>, w': World<Component>, e: Entity, intent: Intent, m: Map)
    requires Valid(m) && WellTyped(w) && WellTyped(w')
    requires forall n :: GetComponent(w', e, n) == GetComponent(w, e, n)
    ensures forall n :: GetComponent(StepEntity(w', e, intent, m), e, n) == GetComponent(StepEntity(w, e, intent, m), e, n)
  {
    assert GetComponent(w', e, NamePlayerControl) == GetComponent(w, e, NamePlayerControl);
    assert GetComponent(w', e, NamePosition) == GetComponent(w, e, NamePosition);
  }

  /** Both axes can be set in one batch, so a move can be diagonal. */
  lemma DiagonalBatch()
    ensures ReadEvents([InputEvent(KeyW, 0, false), InputEvent(KeyD, 0, false)]) == Intent(1, -1, false)
  {
    var w := InputEvent(KeyW, 0, false);
    assert [w, InputEvent(KeyD, 0, false)][..1] == [w];
    assert [w][..0] == [];
    assert ReadEvents([w]) == Intent(0, -1, false);
  }
}
