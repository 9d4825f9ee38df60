/** The entity-component registry (internal/ecs/world.go): entities are bare
    ids, and each component name owns a store mapping entities to that
    component's data. */
module Ecs {
  import opened Wrappers
  import opened Seqs

  const EntityLimit := 0x1_0000_0000

  /** `ecs.Entity`: an unsigned 32-bit id; 0 is kept for "no entity". */
  newtype Entity = x: int | 0 <= x < EntityLimit

  /** `ecs.World`, over any component type C. The stores are keyed by the
      component's name, e.g. "Position". */
  datatype World<C> = World(nextEntityId: Entity, stores: map<string, map<Entity, C>>)

  /** `NewWorld`: ids start at 1 and no store exists yet. */
  function NewWorld<C>(): (w: World<C>)
    ensures w.nextEntityId == 1 && w.stores == map[]
    ensures forall e: Entity, n :: GetComponent(w, e, n) == None
  {
    World(1, map[])
  }

  /** `CreateEntity`: hands out the next id and advances the counter with
      uint32 wrap-around. No store changes. */
  function CreateEntity<C>(w: World<C>): (r: (World<C>, Entity))
    ensures r.1 == w.nextEntityId
    ensures r.0.stores == w.stores
    ensures r.0.nextEntityId as int == (w.nextEntityId as int + 1) % EntityLimit
  {
    var next := if w.nextEntityId as int == EntityLimit - 1 then 0 else w.nextEntityId + 1;
    (World(next, w.stores), w.nextEntityId)
  }

  /** `DestroyEntity`: drop the entity from every store. */
  function DestroyEntity<C>(w: World<C>, e: Entity): (r: World<C>)
    ensures r.nextEntityId == w.nextEntityId && r.stores.Keys == w.stores.Keys
    ensures forall n :: GetComponent(r, e, n) == None
    ensures forall e', n :: e' != e ==> GetComponent(r, e', n) == GetComponent(w, e', n)
  {
    World(w.nextEntityId, map n | n in w.stores :: w.stores[n] - {e})
  }

  /** `AddComponent`: create the named store on first use, then set the
      entity's entry, replacing any previous one. */
  function AddComponent<C>(w: World<C>, e: Entity, name: string, c: C): (r: World<C>)
    ensures r.nextEntityId == w.nextEntityId && r.stores.Keys == w.stores.Keys + {name}
    ensures GetComponent(r, e, name) == Some(c)
    ensures forall e', n :: e' != e || n != name ==> GetComponent(r, e', n) == GetComponent(w, e', n)
  {
    var store := if name in w.stores then w.stores[name] else map[];
    World(w.nextEntityId, w.stores[name := store[e := c]])
  }

  /** `GetComponent`: None (Go's nil) for a name with no store or an entity
      without an entry. */
  function GetComponent<C>(w: World<C>, e: Entity, name: string): (r: Option<C>)
    ensures r.Some? <==> name in w.stores && e in w.stores[name]
  {
    if name !in w.stores then None
    else if e !in w.stores[name] then None
    else Some(w.stores[name][e])
  }

  /** `RemoveComponent`: delete the entity's entry if the store exists. */
  function RemoveComponent<C>(w: World<C>, e: Entity, name: string): (r: World<C>)
    ensures r.nextEntityId == w.nextEntityId && r.stores.Keys == w.stores.Keys
    ensures GetComponent(r, e, name) == None
    ensures forall e', n :: e' != e || n != name ==> GetComponent(r, e', n) == GetComponent(w, e', n)
  {
    if name in w.stores then World(w.nextEntityId, w.stores[name := w.stores[name] - {e}]) else w
  }

  /** Go's map iteration order is unspecified, so the order in which
      `GetEntitiesWith` lists a store's entities is left open: every entity
      of the store appears exactly once. A store never created gives nil. */
  method GetEntitiesWith<C>(w: World<C>, name: string) returns (r: Option<seq<Entity>>)
    ensures r.None? <==> name !in w.stores
    ensures r.Some? ==> Distinct(r.value) && (forall e :: e in r.value <==> e in w.stores[name])
    ensures r.Some? ==> |r.value| == |w.stores[name]|
  {
    if name !in w.stores {
      return None;
    }
    var store := w.stores[name];
    var rest := store.Keys;
    var entities: seq<Entity> := [];
    while rest != {}
      invariant rest <= store.Keys
      invariant forall e :: e in entities <==> e in store.Keys && e !in rest
      invariant Distinct(entities)
      invariant |entities| + |rest| == |store.Keys|
      decreases |rest|
    {
      var e :| e in rest;
      entities := entities + [e];
      rest := rest - {e};
    }
    return Some(entities);
  }

  // ---------------------------------------------------------------------------
  // What the registry promises
  // ---------------------------------------------------------------------------

  /** Removing undoes adding to an entity that had no such component. */
  lemma AddThenRemove<C>(w: World<C>, e: Entity, name: string, c: C, e': Entity, name': string)
    requires GetComponent(w, e, name) == None
    ensures GetComponent(RemoveComponent(AddComponent(w, e, name, c), e, name), e', name') ==
            GetComponent(w, e', name')
  {
  }

  /** The ids `CreateEntity` hands out, n calls in a row. */
  function CreateMany<C>(w: World<C>, n: nat): (r: (World<C>, seq<Entity>))
    ensures |r.1| == n && r.0.stores == w.stores
    decreases n
  {
    if n == 0 then (w, [])
    else
      var (w1, id) := CreateEntity(w);
      var (w2, ids) := CreateMany(w1, n - 1);
      (w2, [id] + ids)
  }

  /** Below the wrap-around, the i-th id handed out is the counter plus i. */
  lemma {:induction false} CreateCounts<C>(w: World<C>, n: nat)
    requires w.nextEntityId as int + n <= EntityLimit
    ensures forall i :: 0 <= i < n ==> CreateMany(w, n).1[i] as int == w.nextEntityId as int + i
    decreases n
  {
    if n > 0 {
      var (w1, id) := CreateEntity(w);
      CreateCounts(w1, n - 1);
      var ids := CreateMany(w1, n - 1).1;
      assert CreateMany(w, n).1 == [id] + ids;
    }
  }

  /** From a new world, the first ids are 1, 2, 3, ...: all distinct and none
      of them the reserved 0, as long as the counter does not wrap. */
  lemma FreshIds<C>(n: nat)
    requires n < EntityLimit
    ensures var ids := CreateMany(NewWorld<C>(), n).1;
            Distinct(ids) && (forall i :: 0 <= i < n ==> ids[i] as int == i + 1)
  {
    CreateCounts(NewWorld<C>(), n);
  }

  /** The counter wraps: after the last id comes the reserved 0. */
  lemma CounterWraps<C>(stores: map<string, map<Entity, C>>)
    ensures CreateEntity(World((EntityLimit - 1) as Entity, stores)).0.nextEntityId == 0
  {
  }
}
