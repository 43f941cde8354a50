/** The entity lifecycle of `Entity.cpp`: registration in the handle table,
    reference cleanup, the destructor's teardown order, save-game
    bookkeeping and the recursive destruction of linked objects. The world
    is a value: the handle-indexed table, the `linked` list of every mesh,
    the global back-reference slots, the save-game log and a trace of the
    teardown steps. Subsystems whose effect is invisible here (scripts,
    timers, speech, lights, sounds, spells, animations) are left out. */
module Entities {

  import opened Options

  /** The `ioflags` bits the lifecycle reads. */
  datatype IoFlag = IoNpc | IoItem | IoFix | IoCamera | IoMarker | IoGold | IoNoSave

  /** `_npcdata`, reduced to the weapon it holds (a handle, -1 for none). */
  datatype NpcData = NpcData(weapon: int)

  /** `_itemdata`, reduced to the stack count. */
  datatype ItemData = ItemData(count: int)

  /** `EntityId`: class name and instance number. */
  datatype EntityId = EntityId(cls: string, instance: int)

  /** An entry of a mesh's `linked` list: the vertex group it hangs from
      (None for the invalid group), the attached mesh (None for null) and
      the attached entity (a handle, -1 for null). */
  datatype Link = Link(group: Option<nat>, obj: Option<nat>, io: int)

  /** An entity as the lifecycle sees it. Meshes are named by number; the
      payload references are None (or false) when null; `inventory` lists the
      handles of the entities in the entity's own inventory. */
  datatype Entity = Entity(
    index: int,
    id: EntityId,
    flags: set<IoFlag>,
    scriptload: bool,
    obj: Option<nat>,
    npc: Option<NpcData>,
    item: Option<ItemData>,
    fix: bool,
    cam: bool,
    inventory: Option<seq<int>>)

  /** The global back-reference slots `g_draggedEntity`, `FlyingOverIO`,
      `COMBINE`, `pIOChangeWeapon`, `ioSteal` and `g_cameraEntity`, as
      handles (-1 for null). */
  datatype Refs = Refs(dragged: int, flyingOver: int, combine: int, changeWeapon: int, steal: int, camera: int)

  datatype PayloadKind = NpcPayload | ItemPayload | FixPayload | CameraPayload

  /** The observable teardown steps, in the order they happen. */
  datatype Event =
    | Cleaned(h: int)
    | FreedMesh(mesh: nat)
    | FreedPayload(owner: int, kind: PayloadKind)
    | Relocated(item: int)
    | Released(slot: int)

  /** `currentSavedGameRemoveEntity` and `currentSavedGameStoreEntityDeletion`. */
  datatype SaveOp = RemoveRecord(id: EntityId) | StoreDeletion(id: EntityId)

  datatype World = World(
    slots: seq<Option<Entity>>,
    links: map<nat, seq<Link>>,
    refs: Refs,
    saves: seq<SaveOp>,
    trace: seq<Event>)

  predicate Live(slots: seq<Option<Entity>>, h: int) {
    0 <= h < |slots| && slots[h].Some?
  }

  /** The `linked` list of mesh `m` (empty when never linked). */
  function LinksOf(links: map<nat, seq<Link>>, m: nat): seq<Link> {
    if m in links then links[m] else []
  }

  // ---------------------------------------------------------------------
  // The handle table

  function LowestFree(slots: seq<Option<Entity>>): (i: nat)
    ensures i <= |slots| && (i < |slots| ==> slots[i].None?)
    ensures forall j :: 0 <= j < i ==> slots[j].Some?
  {
    if |slots| == 0 || slots[0].None? then 0 else 1 + LowestFree(slots[1..])
  }

  /** `EntityManager::add`: stores `e` in the lowest free slot, growing
      the table by one slot when none is free. */
  function Add(slots: seq<Option<Entity>>, e: Entity): (r: (seq<Option<Entity>>, nat))
    ensures r.1 <= |slots| && r.1 < |r.0| && r.0[r.1] == Some(e)
    ensures r.1 < |slots| ==> slots[r.1].None? && |r.0| == |slots|
    ensures r.1 == |slots| ==> |r.0| == |slots| + 1
    ensures forall j :: 0 <= j < r.1 ==> slots[j].Some?
    ensures forall j :: 0 <= j < |slots| && j != r.1 ==> r.0[j] == slots[j]
  {
    var i := LowestFree(slots);
    if i < |slots| then (slots[i := Some(e)], i) else (slots + [Some(e)], i)
  }

  /** `EntityManager::remove`: invalidates a slot without shrinking. */
  function Remove(slots: seq<Option<Entity>>, i: int): (r: seq<Option<Entity>>)
    ensures |r| == |slots| && !Live(r, i)
    ensures forall j :: 0 <= j < |slots| && j != i ==> r[j] == slots[j]
  {
    if 0 <= i < |slots| then slots[i := None] else slots
  }

  /** `EntityManager::get`: the entity in a valid slot, None otherwise. */
  function Get(slots: seq<Option<Entity>>, i: int): (r: Option<Entity>)
    ensures r.Some? <==> Live(slots, i)
    ensures r.Some? ==> slots[i] == r
  {
    if Live(slots, i) then slots[i] else None
  }

  /** Removing what was just added restores the table, except that a slot
      added at the end stays allocated; until then `get` finds the entity. */
  lemma RemoveUndoesAdd(slots: seq<Option<Entity>>, e: Entity)
    ensures Get(Add(slots, e).0, Add(slots, e).1) == Some(e)
    ensures var (s, i) := Add(slots, e);
      Remove(s, i) == if i < |slots| then slots else slots + [None]
  {
    var (s, i) := Add(slots, e);
    if i < |slots| {
      assert Remove(s, i) == slots;
    } else {
      assert Remove(s, i) == slots + [None];
    }
  }

  /** `Entity::Entity`: a new entity with no flags, no mesh, no inventory
      and all four payloads null, registered in the table under the index
      `add` returned, which it remembers. */
  function Construct(w: World, id: EntityId): (r: (World, int))
    ensures Live(r.0.slots, r.1) && r.0.slots[r.1].value.index == r.1
    ensures var e := r.0.slots[r.1].value;
      && e.id == id && e.flags == {} && !e.scriptload && e.obj.None? && e.inventory.None?
      && e.npc.None? && e.item.None? && !e.fix && !e.cam
    ensures !Live(w.slots, r.1) && forall j :: 0 <= j < r.1 ==> Live(w.slots, j)
    ensures |r.0.slots| >= |w.slots| && forall j :: 0 <= j < |w.slots| && j != r.1 ==> r.0.slots[j] == w.slots[j]
    ensures r.0.links == w.links && r.0.refs == w.refs && r.0.saves == w.saves && r.0.trace == w.trace
  {
    var i := LowestFree(w.slots);
    var e := Entity(i, id, {}, false, None, None, None, false, false, None);
    var (s, j) := Add(w.slots, e);
    (w.(slots := s), j)
  }

  // ---------------------------------------------------------------------
  // cleanReferences

  function ClearIf(x: int, h: int): int {
    if x == h then -1 else x
  }

  /** The five slots `cleanReferences` looks at. */
  function CleanedSlots(r: Refs): seq<int> {
    [r.dragged, r.flyingOver, r.combine, r.changeWeapon, r.steal]
  }

  /** Each of the five slots is cleared when it holds `h` and left alone
      otherwise; the camera slot is not touched. */
  function ClearRefs(r: Refs, h: int): (c: Refs)
    ensures h != -1 ==> h !in CleanedSlots(c)
    ensures forall k :: 0 <= k < 5 ==>
      (CleanedSlots(c)[k] != CleanedSlots(r)[k] <==> CleanedSlots(r)[k] == h && h != -1)
    ensures forall k :: 0 <= k < 5 && CleanedSlots(c)[k] != CleanedSlots(r)[k] ==> CleanedSlots(c)[k] == -1
    ensures c.camera == r.camera
  {
    Refs(ClearIf(r.dragged, h), ClearIf(r.flyingOver, h), ClearIf(r.combine, h),
         ClearIf(r.changeWeapon, h), ClearIf(r.steal, h), r.camera)
  }

  /** `l` with every entry for mesh `m` dropped
      (`EERIE_LINKEDOBJ_UnLinkObjectFromObject`). */
  function Unlink(l: seq<Link>, m: nat): (r: seq<Link>)
    ensures |r| <= |l|
    ensures forall x :: x in r <==> x in l && x.obj != Some(m)
  {
    if |l| == 0 then []
    else (if l[0].obj == Some(m) then [] else [l[0]]) + Unlink(l[1..], m)
  }

  /** Some live entity has mesh `m`. */
  predicate OwnedByLive(slots: seq<Option<Entity>>, m: nat) {
    exists i :: 0 <= i < |slots| && slots[i].Some? && slots[i].value.obj == Some(m)
  }

  /** The unlink sweep of `cleanReferences`: mesh `vm` is unlinked from the
      mesh of every live entity. */
  function Detach(slots: seq<Option<Entity>>, links: map<nat, seq<Link>>, vm: Option<nat>): (r: map<nat, seq<Link>>)
    ensures forall m, x :: x in LinksOf(r, m) ==> x in LinksOf(links, m)
    ensures vm.Some? ==> forall m, x :: OwnedByLive(slots, m) && x in LinksOf(r, m) ==> x.obj != vm
    ensures forall m :: !OwnedByLive(slots, m) ==> LinksOf(r, m) == LinksOf(links, m)
  {
    if vm.None? then links
    else map m | m in links :: if OwnedByLive(slots, m) then Unlink(links[m], vm.value) else links[m]
  }

  function ClearWeapon(e: Entity, h: int): Entity {
    if IoNpc in e.flags && e.npc.Some? && e.npc.value.weapon == h then e.(npc := Some(NpcData(-1))) else e
  }

  /** The weapon sweep of `cleanReferences`: no live NPC keeps `h` as its
      weapon; every other weapon is kept. */
  function ClearWeapons(slots: seq<Option<Entity>>, h: int): (r: seq<Option<Entity>>)
    ensures Shrinks(slots, r) && forall i :: Live(slots, i) ==> Live(r, i)
    ensures h != -1 ==> forall i :: Live(r, i) && IoNpc in r[i].value.flags && r[i].value.npc.Some? ==>
      r[i].value.npc.value.weapon != h
    ensures forall i :: Live(r, i) ==> r[i].value.npc == slots[i].value.npc || r[i].value.npc == Some(NpcData(-1))
    ensures forall i :: Live(r, i) ==> r[i].value.inventory == slots[i].value.inventory
  {
    seq(|slots|, i requires 0 <= i < |slots| => if slots[i].Some? then Some(ClearWeapon(slots[i].value, h)) else None)
  }

  function RemoveAll(items: seq<int>, x: int): (r: seq<int>)
    ensures forall y :: y in r <==> y in items && y != x
  {
    if |items| == 0 then []
    else (if items[0] == x then [] else [items[0]]) + RemoveAll(items[1..], x)
  }

  /** `removeFromInventories`: `x` leaves every inventory it is in. */
  function DropFromInventories(slots: seq<Option<Entity>>, x: int): (r: seq<Option<Entity>>)
    ensures Shrinks(slots, r) && forall i :: Live(slots, i) ==> Live(r, i)
    ensures forall i :: Live(r, i) && r[i].value.inventory.Some? ==> x !in r[i].value.inventory.value
    ensures forall i, y :: Live(r, i) && r[i].value.inventory.Some? && y in r[i].value.inventory.value ==>
      slots[i].value.inventory.Some? && y in slots[i].value.inventory.value
    ensures forall i :: Live(r, i) ==> r[i].value.npc == slots[i].value.npc
    ensures forall i :: Live(r, i) ==> r[i].value.inventory.Some? == slots[i].value.inventory.Some?
  {
    seq(|slots|, i requires 0 <= i < |slots| =>
      if slots[i].Some? && slots[i].value.inventory.Some?
      then Some(slots[i].value.(inventory := Some(RemoveAll(slots[i].value.inventory.value, x))))
      else slots[i])
  }

  /** Nothing in the world refers to `h` any more: no global slot, no live
      NPC's weapon, no live inventory and no `linked` list of a live
      entity's mesh. */
  ghost predicate Clean(w: World, h: int) {
    && h !in CleanedSlots(w.refs)
    && (forall i :: Live(w.slots, i) && IoNpc in w.slots[i].value.flags && w.slots[i].value.npc.Some? ==>
          w.slots[i].value.npc.value.weapon != h)
    && (forall i :: Live(w.slots, i) && w.slots[i].value.inventory.Some? ==> h !in w.slots[i].value.inventory.value)
    && (forall i, x :: Live(w.slots, i) && w.slots[i].value.obj.Some? && x in LinksOf(w.links, w.slots[i].value.obj.value) ==>
          x.io != h)
  }

  /** `Entity::cleanReferences`: clears every global slot, NPC weapon,
      inventory entry and mesh link that refers to the entity; the entity
      itself stays registered. */
  function CleanReferences(w: World, h: int): (r: World)
    requires Live(w.slots, h) && Consistent(w.slots) && LinksValid(w.slots, w.links)
    ensures Clean(r, h) && Live(r.slots, h)
    ensures Shrinks(w.slots, r.slots) && forall i :: Live(w.slots, i) ==> Live(r.slots, i)
    ensures forall m, x :: x in LinksOf(r.links, m) ==> x in LinksOf(w.links, m)
    ensures r.refs.camera == w.refs.camera && r.saves == w.saves && r.trace == w.trace + [Cleaned(h)]
  {
    var e := w.slots[h].value;
    var slots := ClearWeapons(DropFromInventories(w.slots, h), h);
    var links := Detach(w.slots, w.links, e.obj);
    var r := w.(slots := slots, links := links, refs := ClearRefs(w.refs, h), trace := w.trace + [Cleaned(h)]);
    CleanLinks(w, links, slots, h);
    r
  }

  /** After the unlink sweep no list of a live entity's mesh still names
      `h`: an entry for `h` carries `h`'s own mesh, which was unlinked. */
  lemma CleanLinks(w: World, links: map<nat, seq<Link>>, slots: seq<Option<Entity>>, h: int)
    requires Live(w.slots, h) && LinksValid(w.slots, w.links)
    requires links == Detach(w.slots, w.links, w.slots[h].value.obj)
    requires Shrinks(w.slots, slots)
    ensures forall i, x :: Live(slots, i) && slots[i].value.obj.Some? && x in LinksOf(links, slots[i].value.obj.value) ==>
      x.io != h
  {
    var vm := w.slots[h].value.obj;
    forall i, x | Live(slots, i) && slots[i].value.obj.Some? && x in LinksOf(links, slots[i].value.obj.value)
      ensures x.io != h
    {
      var m := slots[i].value.obj.value;
      assert w.slots[i].value.obj == Some(m);
      assert OwnedByLive(w.slots, m);
      assert x in LinksOf(w.links, m);
      assert ValidLink(w.slots, x);
      if vm.Some? {
        assert x.obj != vm;
      }
    }
  }

  // ---------------------------------------------------------------------
  // Invariants the teardown keeps

  /** The fields teardown never changes on an entity that survives it. */
  predicate SameFrame(a: Entity, b: Entity) {
    && a.index == b.index && a.id == b.id && a.flags == b.flags && a.scriptload == b.scriptload
    && a.obj == b.obj && a.npc.Some? == b.npc.Some? && a.item.Some? == b.item.Some? && a.fix == b.fix && a.cam == b.cam
  }

  /** `b` is `a` with some entities gone and, on the others, only weapons
      and inventories changed. */
  predicate Shrinks(a: seq<Option<Entity>>, b: seq<Option<Entity>>) {
    |a| == |b| && forall i :: 0 <= i < |b| && b[i].Some? ==> a[i].Some? && SameFrame(a[i].value, b[i].value)
  }

  lemma ShrinksTrans(a: seq<Option<Entity>>, b: seq<Option<Entity>>, c: seq<Option<Entity>>)
    requires Shrinks(a, b) && Shrinks(b, c)
    ensures Shrinks(a, c)
  {
  }

  /** Every live entity sits in the slot it remembers, and its flags do
      not promise a payload it lacks. */
  ghost predicate Consistent(slots: seq<Option<Entity>>) {
    forall h :: Live(slots, h) ==>
      && slots[h].value.index == h
      && (IoNpc in slots[h].value.flags ==> slots[h].value.npc.Some?)
      && (IoItem in slots[h].value.flags ==> slots[h].value.item.Some?)
  }

  lemma ShrinkKeepsConsistent(a: seq<Option<Entity>>, b: seq<Option<Entity>>)
    requires Consistent(a) && Shrinks(a, b)
    ensures Consistent(b)
  {
  }

  /** A `linked` entry that `destroy` can process: it has a group and a
      mesh, and names a live entity whose mesh that is. */
  predicate ValidLink(slots: seq<Option<Entity>>, x: Link) {
    x.group.Some? && x.obj.Some? && Live(slots, x.io) && slots[x.io].value.obj == x.obj
  }

  /** Every entry of the list of a live entity's mesh is valid. */
  ghost predicate LinksValid(slots: seq<Option<Entity>>, links: map<nat, seq<Link>>) {
    forall i, x :: Live(slots, i) && slots[i].value.obj.Some? && x in LinksOf(links, slots[i].value.obj.value) ==>
      ValidLink(slots, x)
  }

  /** `rank` orders the attachment graph: every entity attached to a live
      entity's mesh ranks strictly lower than that entity, so following
      attachments always ends. */
  ghost predicate Ranked(slots: seq<Option<Entity>>, links: map<nat, seq<Link>>, rank: map<int, nat>) {
    && (forall i :: Live(slots, i) ==> i in rank)
    && LinksValid(slots, links)
    && forall i, x :: Live(slots, i) && slots[i].value.obj.Some? && x in LinksOf(links, slots[i].value.obj.value) ==>
         x.io in rank && rank[x.io] < rank[i]
  }

  /** Links only disappear and every survivor still names a live entity:
      the ranking carries over. */
  lemma RankedCarriesOver(a: seq<Option<Entity>>, la: map<nat, seq<Link>>, b: seq<Option<Entity>>, lb: map<nat, seq<Link>>, rank: map<int, nat>)
    requires Ranked(a, la, rank) && Shrinks(a, b)
    requires forall m, x :: x in LinksOf(lb, m) ==> x in LinksOf(la, m)
    requires forall i, x :: Live(b, i) && b[i].value.obj.Some? && x in LinksOf(lb, b[i].value.obj.value) ==> Live(b, x.io)
    ensures Ranked(b, lb, rank)
  {
    forall i, x | Live(b, i) && b[i].value.obj.Some? && x in LinksOf(lb, b[i].value.obj.value)
      ensures ValidLink(b, x) && x.io in rank && rank[x.io] < rank[i]
    {
      assert Live(a, i) && a[i].value.obj == b[i].value.obj;
      assert x in LinksOf(la, a[i].value.obj.value);
      assert ValidLink(a, x);
      assert Live(a, x.io) && a[x.io].value.obj == b[x.io].value.obj;
    }
  }

  /** Changing only weapons, inventories or stack counts keeps the
      ranking. */
  lemma SameLiveKeepsRanked(a: seq<Option<Entity>>, b: seq<Option<Entity>>, links: map<nat, seq<Link>>, rank: map<int, nat>)
    requires Ranked(a, links, rank) && Shrinks(a, b) && forall i :: Live(a, i) ==> Live(b, i)
    ensures Ranked(b, links, rank)
  {
    forall i, x | Live(b, i) && b[i].value.obj.Some? && x in LinksOf(links, b[i].value.obj.value)
      ensures Live(b, x.io)
    {
      assert Live(a, i) && a[i].value.obj == b[i].value.obj;
      assert ValidLink(a, x);
    }
    RankedCarriesOver(a, links, b, links, rank);
  }

  // ---------------------------------------------------------------------
  // The destructor

  /** The mesh is freed unless the entity is a camera, a marker or gold,
      whose meshes are shared. */
  function MeshRelease(e: Entity): seq<Event> {
    if e.obj.Some? && IoCamera !in e.flags && IoMarker !in e.flags && IoGold !in e.flags
    then [FreedMesh(e.obj.value)] else []
  }

  /** The one payload the destructor frees: NPC data before item data
      before fix data before camera data (the last only when present). */
  function PayloadRelease(e: Entity, h: int): seq<Event> {
    if IoNpc in e.flags then [FreedPayload(h, NpcPayload)]
    else if IoItem in e.flags then [FreedPayload(h, ItemPayload)]
    else if IoFix in e.flags then [FreedPayload(h, FixPayload)]
    else if IoCamera in e.flags && e.cam then [FreedPayload(h, CameraPayload)]
    else []
  }

  /** The items of the destroyed entity's inventory are placed in the
      world and taken out of every inventory; they stay registered. */
  function RelocateItems(w: World, items: seq<int>): (r: World)
    decreases |items|
    ensures Shrinks(w.slots, r.slots) && forall i :: Live(w.slots, i) ==> Live(r.slots, i)
    ensures forall i :: Live(r.slots, i) ==> r.slots[i].value.npc == w.slots[i].value.npc
    ensures forall i :: Live(r.slots, i) ==> r.slots[i].value.inventory.Some? == w.slots[i].value.inventory.Some?
    ensures r.links == w.links && r.refs == w.refs && r.saves == w.saves
    ensures r.trace == w.trace + seq(|items|, k requires 0 <= k < |items| => Relocated(items[k]))
  {
    if |items| == 0 then w
    else
      var w1 := w.(slots := DropFromInventories(w.slots, items[0]), trace := w.trace + [Relocated(items[0])]);
      var r := RelocateItems(w1, items[1..]);
      assert r.trace == w.trace + seq(|items|, k requires 0 <= k < |items| => Relocated(items[k]));
      r
  }

  /** A relocated item is in no inventory afterwards, and nothing new
      entered an inventory. */
  lemma {:induction false} RelocatedLeaveInventories(w: World, items: seq<int>, i: int, y: int)
    requires Live(RelocateItems(w, items).slots, i)
    requires RelocateItems(w, items).slots[i].value.inventory.Some?
    ensures y in RelocateItems(w, items).slots[i].value.inventory.value ==>
      y !in items && y in w.slots[i].value.inventory.value
    decreases |items|
  {
    if |items| > 0 {
      var w1 := w.(slots := DropFromInventories(w.slots, items[0]), trace := w.trace + [Relocated(items[0])]);
      assert RelocateItems(w, items) == RelocateItems(w1, items[1..]);
      RelocatedLeaveInventories(w1, items[1..], i, y);
      assert items == [items[0]] + items[1..];
    }
  }

  function Items(e: Entity): seq<int> {
    if e.inventory.Some? then e.inventory.value else []
  }

  /** `Entity::~Entity`: clean references, clear the camera slot, free the
      mesh and the payload, move the inventory's items into the world, and
      finally release the table slot (when the entity has one). */
  function Destructor(w: World, h: int): (r: World)
    requires Live(w.slots, h) && Consistent(w.slots) && LinksValid(w.slots, w.links)
    ensures Shrinks(w.slots, r.slots) && !Live(r.slots, h)
    ensures forall i :: i != h && Live(w.slots, i) ==> Live(r.slots, i)
    ensures forall m, x :: x in LinksOf(r.links, m) ==> x in LinksOf(w.links, m)
    ensures r.saves == w.saves
  {
    var e := w.slots[h].value;
    var w1 := CleanReferences(w, h);
    var w2 := w1.(refs := w1.refs.(camera := ClearIf(w1.refs.camera, h)),
                  trace := w1.trace + MeshRelease(e) + PayloadRelease(e, h));
    var w3 := RelocateItems(w2, Items(e));
    ShrinksTrans(w.slots, w1.slots, w3.slots);
    if e.index != -1 then w3.(slots := Remove(w3.slots, e.index), trace := w3.trace + [Released(e.index)]) else w3
  }

  /** The teardown order: reference cleanup is the first step and the slot
      release the last; between them come only the mesh, payload and
      inventory steps. */
  lemma DestructorOrder(w: World, h: int)
    requires Live(w.slots, h) && Consistent(w.slots) && LinksValid(w.slots, w.links)
    ensures var r := Destructor(w, h);
      && |r.trace| >= |w.trace| + 2 && r.trace[..|w.trace|] == w.trace
      && r.trace[|w.trace|] == Cleaned(h)
      && r.trace[|r.trace| - 1] == Released(h)
      && forall k :: |w.trace| < k < |r.trace| - 1 ==>
           r.trace[k].FreedMesh? || r.trace[k].FreedPayload? || r.trace[k].Relocated?
  {
    var e := w.slots[h].value;
    var mid := MeshRelease(e) + PayloadRelease(e, h) + seq(|Items(e)|, k requires 0 <= k < |Items(e)| => Relocated(Items(e)[k]));
    assert Destructor(w, h).trace == w.trace + [Cleaned(h)] + mid + [Released(h)];
  }

  /** The new trace entries of the destructor. */
  function TeardownOf(w: World, h: int): seq<Event>
    requires Live(w.slots, h) && Consistent(w.slots) && LinksValid(w.slots, w.links)
  {
    var r := Destructor(w, h);
    if |w.trace| <= |r.trace| then r.trace[|w.trace|..] else []
  }

  function RelocatedEvents(items: seq<int>): seq<Event> {
    seq(|items|, k requires 0 <= k < |items| => Relocated(items[k]))
  }

  /** The destructor's steps, in order. */
  lemma TeardownShape(w: World, h: int)
    requires Live(w.slots, h) && Consistent(w.slots) && LinksValid(w.slots, w.links)
    ensures var e := w.slots[h].value;
      TeardownOf(w, h) == [Cleaned(h)] + MeshRelease(e) + PayloadRelease(e, h) + RelocatedEvents(Items(e)) + [Released(h)]
  {
  }

  /** The mesh is freed exactly when there is one and the entity is not a
      camera, a marker or gold. */
  lemma DestructorFreesMesh(w: World, h: int)
    requires Live(w.slots, h) && Consistent(w.slots) && LinksValid(w.slots, w.links)
    ensures var e := w.slots[h].value;
      forall m: nat :: FreedMesh(m) in TeardownOf(w, h) <==>
        e.obj == Some(m) && IoCamera !in e.flags && IoMarker !in e.flags && IoGold !in e.flags
  {
    TeardownShape(w, h);
  }

  /** Exactly one payload is freed when any payload flag is set: the
      first of NPC, item, fix and camera data whose flag is set (camera data
      only when present). */
  lemma DestructorFreesOnePayload(w: World, h: int)
    requires Live(w.slots, h) && Consistent(w.slots) && LinksValid(w.slots, w.links)
    ensures var e := w.slots[h].value; var t := TeardownOf(w, h);
      && (FreedPayload(h, NpcPayload) in t <==> IoNpc in e.flags)
      && (FreedPayload(h, ItemPayload) in t <==> IoItem in e.flags && IoNpc !in e.flags)
      && (FreedPayload(h, FixPayload) in t <==> IoFix in e.flags && IoItem !in e.flags && IoNpc !in e.flags)
      && (FreedPayload(h, CameraPayload) in t <==>
            IoCamera in e.flags && e.cam && IoFix !in e.flags && IoItem !in e.flags && IoNpc !in e.flags)
  {
    var e := w.slots[h].value;
    TeardownShape(w, h);
    PayloadOnlyFromRelease(e, h, NpcPayload);
    PayloadOnlyFromRelease(e, h, ItemPayload);
    PayloadOnlyFromRelease(e, h, FixPayload);
    PayloadOnlyFromRelease(e, h, CameraPayload);
  }

  lemma PayloadOnlyFromRelease(e: Entity, h: int, k: PayloadKind)
    ensures FreedPayload(h, k) in [Cleaned(h)] + MeshRelease(e) + PayloadRelease(e, h) + RelocatedEvents(Items(e)) + [Released(h)]
      <==> FreedPayload(h, k) in PayloadRelease(e, h)
  {
    assert FreedPayload(h, k) !in MeshRelease(e);
    assert FreedPayload(h, k) !in RelocatedEvents(Items(e));
  }

  /** No destructor frees two payloads. */
  lemma DestructorFreesAtMostOnePayload(w: World, h: int)
    requires Live(w.slots, h) && Consistent(w.slots) && LinksValid(w.slots, w.links)
    ensures var t := TeardownOf(w, h);
      forall k1, k2 :: 0 <= k1 < |t| && 0 <= k2 < |t| && t[k1].FreedPayload? && t[k2].FreedPayload? ==> k1 == k2
  {
    var e := w.slots[h].value;
    TeardownShape(w, h);
    var pre := [Cleaned(h)] + MeshRelease(e);
    var post := RelocatedEvents(Items(e)) + [Released(h)];
    var t := pre + PayloadRelease(e, h) + post;
    assert forall k :: 0 <= k < |pre| ==> !pre[k].FreedPayload?;
    assert forall k :: 0 <= k < |post| ==> !post[k].FreedPayload?;
    forall k | 0 <= k < |t| && t[k].FreedPayload? ensures k == |pre| {
    }
  }

  /** After the destructor nothing refers to the entity, and the items of
      its inventory are still registered, in no inventory. */
  lemma DestructorCleans(w: World, h: int)
    requires Live(w.slots, h) && Consistent(w.slots) && LinksValid(w.slots, w.links)
    ensures var r := Destructor(w, h);
      && Clean(r, h) && r.refs.camera != h
      && forall x :: x in Items(w.slots[h].value) && x != h && Live(w.slots, x) ==>
           Live(r.slots, x)
           && Relocated(x) in r.trace
           && forall i :: Live(r.slots, i) && r.slots[i].value.inventory.Some? ==> x !in r.slots[i].value.inventory.value
  {
    var e := w.slots[h].value;
    var w1 := CleanReferences(w, h);
    var w2 := w1.(refs := w1.refs.(camera := ClearIf(w1.refs.camera, h)),
                  trace := w1.trace + MeshRelease(e) + PayloadRelease(e, h));
    var w3 := RelocateItems(w2, Items(e));
    var r := Destructor(w, h);
    assert r.slots == Remove(w3.slots, h) && r.links == w1.links && r.refs == w3.refs;
    assert r.trace == w3.trace + [Released(h)];
    var rel := seq(|Items(e)|, k requires 0 <= k < |Items(e)| => Relocated(Items(e)[k]));
    forall x | x in Items(e) && x != h && Live(w.slots, x)
      ensures Relocated(x) in r.trace
    {
      var k :| 0 <= k < |Items(e)| && Items(e)[k] == x;
      assert rel[k] == Relocated(x);
      assert w3.trace == w2.trace + rel;
    }
    forall x, i | x in Items(e) && Live(r.slots, i) && r.slots[i].value.inventory.Some?
      ensures x !in r.slots[i].value.inventory.value
    {
      assert Live(w3.slots, i) && r.slots[i] == w3.slots[i];
      RelocatedLeaveInventories(w2, Items(e), i, x);
    }
    forall i | Live(r.slots, i) && IoNpc in r.slots[i].value.flags && r.slots[i].value.npc.Some?
      ensures r.slots[i].value.npc.value.weapon != h
    {
      assert Live(w3.slots, i) && r.slots[i] == w3.slots[i];
      assert Live(w1.slots, i);
    }
    forall i | Live(r.slots, i) && r.slots[i].value.inventory.Some?
      ensures h !in r.slots[i].value.inventory.value
    {
      assert Live(w3.slots, i) && r.slots[i] == w3.slots[i];
      assert Live(w1.slots, i) && w2.slots == w1.slots;
      RelocatedLeaveInventories(w2, Items(e), i, h);
    }
    forall i, x | Live(r.slots, i) && r.slots[i].value.obj.Some? && x in LinksOf(r.links, r.slots[i].value.obj.value)
      ensures x.io != h
    {
      assert Live(w3.slots, i) && r.slots[i] == w3.slots[i];
      assert Live(w1.slots, i) && w1.slots[i].value.obj == w3.slots[i].value.obj;
    }
  }

  /** The destructor keeps the world consistent and ranked: the entries
      that named the entity went with its mesh. */
  lemma DestructorKeepsRanked(w: World, h: int, rank: map<int, nat>)
    requires Live(w.slots, h) && Consistent(w.slots) && Ranked(w.slots, w.links, rank)
    ensures Consistent(Destructor(w, h).slots) && Ranked(Destructor(w, h).slots, Destructor(w, h).links, rank)
  {
    var r := Destructor(w, h);
    ShrinkKeepsConsistent(w.slots, r.slots);
    DestructorCleans(w, h);
    forall i, x | Live(r.slots, i) && r.slots[i].value.obj.Some? && x in LinksOf(r.links, r.slots[i].value.obj.value)
      ensures Live(r.slots, x.io)
    {
      assert Live(w.slots, i) && w.slots[i].value.obj == r.slots[i].value.obj;
      assert x in LinksOf(w.links, w.slots[i].value.obj.value);
      assert ValidLink(w.slots, x);
    }
    RankedCarriesOver(w.slots, w.links, r.slots, r.links, rank);
  }

  // ---------------------------------------------------------------------
  // No reference survives a teardown

  /** `b` refers to nothing `a` did not: global slots are only cleared,
      NPC weapons only dropped, inventories and `linked` lists only
      shrunk, and entities only removed. */
  ghost predicate Monotone(a: World, b: World) {
    && Shrinks(a.slots, b.slots)
    && (forall k :: 0 <= k < 5 ==> CleanedSlots(b.refs)[k] == CleanedSlots(a.refs)[k] || CleanedSlots(b.refs)[k] == -1)
    && (forall i :: Live(b.slots, i) ==>
          b.slots[i].value.npc == a.slots[i].value.npc || b.slots[i].value.npc == Some(NpcData(-1)))
    && (forall i, y :: Live(b.slots, i) && b.slots[i].value.inventory.Some? && y in b.slots[i].value.inventory.value ==>
          a.slots[i].value.inventory.Some? && y in a.slots[i].value.inventory.value)
    && (forall m, x :: x in LinksOf(b.links, m) ==> x in LinksOf(a.links, m))
  }

  /** Every entity gone between `a` and `b` is referred to by nothing in `b`. */
  ghost predicate CleanedAll(a: World, b: World) {
    forall x :: Live(a.slots, x) && !Live(b.slots, x) ==> Clean(b, x)
  }

  lemma CleanCarries(a: World, b: World, x: int)
    requires Monotone(a, b) && Clean(a, x) && x != -1
    ensures Clean(b, x)
  {
    forall i, l | Live(b.slots, i) && b.slots[i].value.obj.Some? && l in LinksOf(b.links, b.slots[i].value.obj.value)
      ensures l.io != x
    {
      assert Live(a.slots, i) && a.slots[i].value.obj == b.slots[i].value.obj;
    }
    forall i | Live(b.slots, i) && IoNpc in b.slots[i].value.flags && b.slots[i].value.npc.Some?
      ensures b.slots[i].value.npc.value.weapon != x
    {
      assert Live(a.slots, i) && a.slots[i].value.flags == b.slots[i].value.flags;
    }
    forall i | Live(b.slots, i) && b.slots[i].value.inventory.Some?
      ensures x !in b.slots[i].value.inventory.value
    {
      assert Live(a.slots, i);
    }
    assert forall k :: 0 <= k < 5 ==> CleanedSlots(b.refs)[k] != x;
  }

  /** A step that removes no entity and keeps the entities as they were. */
  lemma SameEntities(a: World, b: World)
    requires b.slots == a.slots && b.refs == a.refs && forall m, x :: x in LinksOf(b.links, m) ==> x in LinksOf(a.links, m)
    ensures Monotone(a, b) && CleanedAll(a, b)
  {
  }

  /** Two steps that each leave their victims unreferenced leave all of
      them unreferenced. */
  lemma ChainCleaned(a: World, b: World, c: World)
    requires Monotone(a, b) && CleanedAll(a, b) && Monotone(b, c) && CleanedAll(b, c)
    ensures Monotone(a, c) && CleanedAll(a, c)
  {
    forall x | Live(a.slots, x) && !Live(c.slots, x) ensures Clean(c, x) {
      if !Live(b.slots, x) {
        CleanCarries(b, c, x);
      }
    }
    forall i | Live(c.slots, i)
      ensures c.slots[i].value.npc == a.slots[i].value.npc || c.slots[i].value.npc == Some(NpcData(-1))
    {
      assert Live(b.slots, i);
    }
    forall i, y | Live(c.slots, i) && c.slots[i].value.inventory.Some? && y in c.slots[i].value.inventory.value
      ensures a.slots[i].value.inventory.Some? && y in a.slots[i].value.inventory.value
    {
      assert Live(b.slots, i);
    }
    ShrinksTrans(a.slots, b.slots, c.slots);
  }

  /** The destructor only clears references, and leaves none to its victim. */
  lemma DestructorStep(w: World, h: int)
    requires Live(w.slots, h) && Consistent(w.slots) && LinksValid(w.slots, w.links)
    ensures Monotone(w, Destructor(w, h)) && CleanedAll(w, Destructor(w, h))
  {
    var e := w.slots[h].value;
    var w1 := CleanReferences(w, h);
    var w2 := w1.(refs := w1.refs.(camera := ClearIf(w1.refs.camera, h)),
                  trace := w1.trace + MeshRelease(e) + PayloadRelease(e, h));
    var w3 := RelocateItems(w2, Items(e));
    var r := Destructor(w, h);
    DestructorCleans(w, h);
    assert r.slots == Remove(w3.slots, h) && r.links == w1.links && r.refs == w3.refs;
    forall i | Live(r.slots, i)
      ensures r.slots[i].value.npc == w.slots[i].value.npc || r.slots[i].value.npc == Some(NpcData(-1))
    {
      assert Live(w3.slots, i) && r.slots[i] == w3.slots[i];
      assert Live(w1.slots, i) && w2.slots == w1.slots;
    }
    forall i, y | Live(r.slots, i) && r.slots[i].value.inventory.Some? && y in r.slots[i].value.inventory.value
      ensures w.slots[i].value.inventory.Some? && y in w.slots[i].value.inventory.value
    {
      assert Live(w3.slots, i) && r.slots[i] == w3.slots[i];
      assert Live(w1.slots, i) && w2.slots == w1.slots;
      RelocatedLeaveInventories(w2, Items(e), i, y);
    }
  }

  // ---------------------------------------------------------------------
  // destroy and destroyOne

  function LiveCount(slots: seq<Option<Entity>>): nat {
    if |slots| == 0 then 0 else (if slots[0].Some? then 1 else 0) + LiveCount(slots[1..])
  }

  lemma {:induction false} LiveCountDrops(a: seq<Option<Entity>>, b: seq<Option<Entity>>, h: int)
    requires |a| == |b| && forall i :: Live(b, i) ==> Live(a, i)
    ensures LiveCount(b) <= LiveCount(a)
    ensures Live(a, h) && !Live(b, h) ==> LiveCount(b) < LiveCount(a)
  {
    if |a| > 0 {
      forall i | Live(b[1..], i) ensures Live(a[1..], i) {
        assert Live(b, i + 1);
      }
      LiveCountDrops(a[1..], b[1..], h - 1);
      assert Live(b, 0) ==> Live(a, 0);
      if h > 0 && Live(a, h) && !Live(b, h) {
        assert Live(a[1..], h - 1) && !Live(b[1..], h - 1);
      }
    }
  }

  /** The save-game bookkeeping of `destroy`: only a numbered instance
      that may be saved leaves a record, removed when the entity came from
      a script load and stored as a deletion otherwise. */
  function RecordDeletion(w: World, h: int): (r: World)
    requires Live(w.slots, h)
    ensures r.slots == w.slots && r.links == w.links && r.refs == w.refs && r.trace == w.trace
    ensures var e := w.slots[h].value;
      && (|r.saves| != |w.saves| <==> e.id.instance > 0 && IoNoSave !in e.flags)
      && |w.saves| <= |r.saves| <= |w.saves| + 1 && r.saves[..|w.saves|] == w.saves
      && (|r.saves| != |w.saves| ==> r.saves[|w.saves|] == (if e.scriptload then RemoveRecord(e.id) else StoreDeletion(e.id)))
  {
    var e := w.slots[h].value;
    if e.id.instance > 0 && IoNoSave !in e.flags then
      w.(saves := w.saves + [if e.scriptload then RemoveRecord(e.id) else StoreDeletion(e.id)])
    else w
  }

  /** `r` is a state a teardown of `w` may reach: still consistent and
      ranked, referring to nothing new, with every entity that went
      referred to by nothing, and with the save log only extended. */
  ghost predicate Teardown(w: World, r: World, rank: map<int, nat>) {
    && Consistent(r.slots) && Ranked(r.slots, r.links, rank)
    && Monotone(w, r) && CleanedAll(w, r)
    && |r.saves| >= |w.saves| && r.saves[..|w.saves|] == w.saves
  }

  lemma TeardownChain(a: World, b: World, c: World, rank: map<int, nat>)
    requires Teardown(a, b, rank) && Teardown(b, c, rank)
    ensures Teardown(a, c, rank)
  {
    ChainCleaned(a, b, c);
    PrefixTrans(a.saves, b.saves, c.saves);
  }

  lemma RecordDeletionStep(w: World, h: int, rank: map<int, nat>)
    requires Live(w.slots, h) && Consistent(w.slots) && Ranked(w.slots, w.links, rank)
    ensures Teardown(w, RecordDeletion(w, h), rank)
  {
    SameEntities(w, RecordDeletion(w, h));
  }

  lemma DestructorTeardown(w: World, h: int, rank: map<int, nat>)
    requires Live(w.slots, h) && Consistent(w.slots) && Ranked(w.slots, w.links, rank)
    ensures Teardown(w, Destructor(w, h), rank)
  {
    DestructorKeepsRanked(w, h, rank);
    DestructorStep(w, h);
    assert Destructor(w, h).saves == w.saves;
  }

  /** No two live entities share a mesh. The source shares meshes only
      between cameras, markers and gold; elsewhere every entity has its
      own. */
  ghost predicate MeshesDistinct(slots: seq<Option<Entity>>) {
    forall i, j :: Live(slots, i) && Live(slots, j) && slots[i].value.obj.Some? && slots[i].value.obj == slots[j].value.obj ==>
      i == j
  }

  /** Every entity of `a` that is gone in `b`, or whose mesh lost an
      attachment between `a` and `b`, took the attached entity with it. */
  ghost predicate TakesAttached(a: World, b: World) {
    forall i, x ::
      (&& Live(a.slots, i) && a.slots[i].value.obj.Some? && x in LinksOf(a.links, a.slots[i].value.obj.value)
       && (!Live(b.slots, i) || x !in LinksOf(b.links, a.slots[i].value.obj.value))) ==>
        !Live(b.slots, x.io)
  }

  lemma ShrinkKeepsDistinct(a: seq<Option<Entity>>, b: seq<Option<Entity>>)
    requires MeshesDistinct(a) && Shrinks(a, b)
    ensures MeshesDistinct(b)
  {
    forall i, j | Live(b, i) && Live(b, j) && b[i].value.obj.Some? && b[i].value.obj == b[j].value.obj
      ensures i == j
    {
      assert Live(a, i) && Live(a, j) && a[i].value.obj == b[i].value.obj && a[j].value.obj == b[j].value.obj;
    }
  }

  lemma TakesAttachedChain(a: World, b: World, c: World)
    requires Shrinks(a.slots, b.slots) && Shrinks(b.slots, c.slots)
    requires TakesAttached(a, b) && TakesAttached(b, c)
    ensures TakesAttached(a, c)
  {
    forall i, x | Live(a.slots, i) && a.slots[i].value.obj.Some? && x in LinksOf(a.links, a.slots[i].value.obj.value)
      && (!Live(c.slots, i) || x !in LinksOf(c.links, a.slots[i].value.obj.value))
      ensures !Live(c.slots, x.io)
    {
      if Live(b.slots, x.io) {
        assert Live(b.slots, i) && x in LinksOf(b.links, a.slots[i].value.obj.value);
        assert b.slots[i].value.obj == a.slots[i].value.obj;
      }
    }
  }

  /** The destructor of an entity whose mesh has nothing attached takes
      nothing attached with it that is not its own: an entry its unlink
      sweep drops carries its mesh, so names the entity itself. */
  lemma DestructorTakesAttached(w: World, h: int)
    requires Live(w.slots, h) && Consistent(w.slots) && LinksValid(w.slots, w.links) && MeshesDistinct(w.slots)
    requires w.slots[h].value.obj.Some? ==> LinksOf(w.links, w.slots[h].value.obj.value) == []
    ensures TakesAttached(w, Destructor(w, h))
  {
    var e := w.slots[h].value;
    var r := Destructor(w, h);
    var w1 := CleanReferences(w, h);
    assert r.links == w1.links == Detach(w.slots, w.links, e.obj);
    forall i, x | Live(w.slots, i) && w.slots[i].value.obj.Some? && x in LinksOf(w.links, w.slots[i].value.obj.value)
      && (!Live(r.slots, i) || x !in LinksOf(r.links, w.slots[i].value.obj.value))
      ensures !Live(r.slots, x.io)
    {
      var m := w.slots[i].value.obj.value;
      assert i != h;
      assert Live(r.slots, i);
      assert OwnedByLive(w.slots, m);
      assert ValidLink(w.slots, x);
      assert e.obj.Some? && x.obj == e.obj;
      assert x.io == h;
    }
  }

  /** A round of the loop of `destroy`: the first entry's entity is
      unlinked and destroyed; every entry the unlink dropped named it. */
  lemma UnlinkFirstTakesAttached(w: World, h: int, rank: map<int, nat>, w2: World)
    requires Live(w.slots, h) && Consistent(w.slots) && Ranked(w.slots, w.links, rank) && MeshesDistinct(w.slots)
    requires w.slots[h].value.obj.Some? && |LinksOf(w.links, w.slots[h].value.obj.value)| > 0
    requires TakesAttached(UnlinkFirst(w, h, rank).0, w2) && Shrinks(w.slots, w2.slots)
    requires !Live(w2.slots, UnlinkFirst(w, h, rank).1)
    ensures TakesAttached(w, w2)
  {
    var (w1, c) := UnlinkFirst(w, h, rank);
    forall i, x | Live(w.slots, i) && w.slots[i].value.obj.Some? && x in LinksOf(w.links, w.slots[i].value.obj.value)
      && (!Live(w2.slots, i) || x !in LinksOf(w2.links, w.slots[i].value.obj.value))
      ensures !Live(w2.slots, x.io)
    {
      var m := w.slots[i].value.obj.value;
      if x !in LinksOf(w1.links, m) {
        assert ValidLink(w.slots, x);
        assert x.obj == w.slots[c].value.obj;
        assert x.io == c;
      }
    }
  }

  /** An entity attached, in `w`, to the mesh of entity `i`. */
  ghost predicate AttachedTo(w: World, i: int, j: int) {
    Live(w.slots, i) && w.slots[i].value.obj.Some? && exists x :: x in LinksOf(w.links, w.slots[i].value.obj.value) && x.io == j
  }

  /** `p` follows attachments: each entity is attached to the previous one. */
  ghost predicate AttachmentPath(w: World, p: seq<int>) {
    |p| > 0 && forall k :: 0 <= k < |p| - 1 ==> AttachedTo(w, p[k], p[k + 1])
  }

  /** When the head of an attachment path is gone, so is all of it. */
  lemma {:induction false} PathTakenAlong(a: World, b: World, p: seq<int>)
    requires TakesAttached(a, b) && AttachmentPath(a, p) && !Live(b.slots, p[0])
    ensures forall k :: 0 <= k < |p| ==> !Live(b.slots, p[k])
    decreases |p|
  {
    if |p| > 1 {
      assert AttachedTo(a, p[0], p[1]);
      var x :| x in LinksOf(a.links, a.slots[p[0]].value.obj.value) && x.io == p[1];
      assert AttachmentPath(a, p[1..]) by {
        forall k | 0 <= k < |p[1..]| - 1 ensures AttachedTo(a, p[1..][k], p[1..][k + 1]) {
          assert AttachedTo(a, p[k + 1], p[k + 2]);
        }
      }
      PathTakenAlong(a, b, p[1..]);
      assert forall k :: 1 <= k < |p| ==> p[k] == p[1..][k - 1];
    }
  }

  /** Destroying `h` destroys everything reachable from it through
      attachments: every entity along a chain in which each is attached to
      the mesh of the one before. */
  lemma DestroyTakesAttachmentPaths(w: World, h: int, rank: map<int, nat>, p: seq<int>)
    requires Live(w.slots, h) && Consistent(w.slots) && Ranked(w.slots, w.links, rank) && MeshesDistinct(w.slots)
    requires AttachmentPath(w, p) && p[0] == h
    ensures forall k :: 0 <= k < |p| ==> !Live(Destroy(w, h, rank).slots, p[k])
  {
    PathTakenAlong(w, Destroy(w, h, rank), p);
  }

  /** `Entity::destroy`: record the deletion, destroy every entity attached
      to the mesh (unlinking each first), then run the destructor. The
      ranking is what makes the loop over `obj->linked` end: each round
      destroys the entity of the first entry, which takes that entry with
      it. Everything ranked above `h` survives, and nothing refers to any
      entity that was destroyed. */
  function Destroy(w: World, h: int, rank: map<int, nat>): (r: World)
    requires Live(w.slots, h) && Consistent(w.slots) && Ranked(w.slots, w.links, rank)
    ensures Teardown(w, r, rank) && !Live(r.slots, h)
    ensures forall i :: Live(w.slots, i) && i in rank && rank[i] > rank[h] ==> Live(r.slots, i)
    ensures var e := w.slots[h].value;
      e.id.instance > 0 && IoNoSave !in e.flags ==>
        |r.saves| > |w.saves| && r.saves[|w.saves|] == (if e.scriptload then RemoveRecord(e.id) else StoreDeletion(e.id))
    ensures MeshesDistinct(w.slots) ==> TakesAttached(w, r)
    ensures MeshesDistinct(w.slots) && w.slots[h].value.obj.Some? ==>
      forall x :: x in LinksOf(w.links, w.slots[h].value.obj.value) ==> !Live(r.slots, x.io)
    decreases LiveCount(w.slots), rank[h], 1
  {
    var w1 := RecordDeletion(w, h);
    RecordDeletionStep(w, h, rank);
    var w2 := DestroyLinked(w1, h, rank);
    var r := Destructor(w2, h);
    DestructorTeardown(w2, h, rank);
    TeardownChain(w, w1, w2, rank);
    TeardownChain(w, w2, r, rank);
    assert |w1.saves| > |w.saves| ==> r.saves[|w.saves|] == w2.saves[..|w1.saves|][|w.saves|];
    DestroyTakesAttached(w, h, rank, w2);
    r
  }

  /** The steps of `destroy` after the loop: the destructor runs on an
      entity whose mesh has nothing attached any more. */
  lemma DestroyTakesAttached(w: World, h: int, rank: map<int, nat>, w2: World)
    requires Live(w.slots, h) && Consistent(w.slots) && Ranked(w.slots, w.links, rank)
    requires Teardown(RecordDeletion(w, h), w2, rank) && Live(w2.slots, h)
    requires w2.slots[h].value.obj.Some? ==> LinksOf(w2.links, w2.slots[h].value.obj.value) == []
    requires MeshesDistinct(w.slots) ==> TakesAttached(RecordDeletion(w, h), w2)
    ensures MeshesDistinct(w.slots) ==> TakesAttached(w, Destructor(w2, h))
  {
    var w1 := RecordDeletion(w, h);
    RecordDeletionStep(w, h, rank);
    if MeshesDistinct(w.slots) {
      ShrinkKeepsDistinct(w.slots, w2.slots);
      assert Live(w2.slots, h) && w2.slots[h].value.obj == w.slots[h].value.obj;
      DestructorTakesAttached(w2, h);
      ShrinksTrans(w.slots, w1.slots, w2.slots);
      TakesAttachedChain(w1, w2, Destructor(w2, h));
    }
  }

  /** The loop of `destroy` over `obj->linked`: it ends with the list
      empty and `h`, and everything ranked at least as high, alive. */
  function DestroyLinked(w: World, h: int, rank: map<int, nat>): (r: World)
    requires Live(w.slots, h) && Consistent(w.slots) && Ranked(w.slots, w.links, rank)
    ensures Teardown(w, r, rank) && Live(r.slots, h)
    ensures forall i :: Live(w.slots, i) && i in rank && rank[i] >= rank[h] ==> Live(r.slots, i)
    ensures r.slots[h].value.obj.Some? ==> LinksOf(r.links, r.slots[h].value.obj.value) == []
    ensures MeshesDistinct(w.slots) ==> TakesAttached(w, r)
    ensures MeshesDistinct(w.slots) && w.slots[h].value.obj.Some? ==>
      forall x :: x in LinksOf(w.links, w.slots[h].value.obj.value) ==> !Live(r.slots, x.io)
    decreases LiveCount(w.slots), rank[h], 0
  {
    var e := w.slots[h].value;
    if e.obj.None? || |LinksOf(w.links, e.obj.value)| == 0 then
      SameEntities(w, w);
      w
    else
      var (w1, c) := UnlinkFirst(w, h, rank);
      var w2 := Destroy(w1, c, rank);
      LiveCountDrops(w1.slots, w2.slots, c);
      var r := DestroyLinked(w2, h, rank);
      TeardownChain(w, w1, w2, rank);
      TeardownChain(w, w2, r, rank);
      LoopRoundTakesAttached(w, h, rank, w2, r);
      r
  }

  /** One round of the loop followed by the rest of it. */
  lemma LoopRoundTakesAttached(w: World, h: int, rank: map<int, nat>, w2: World, r: World)
    requires Live(w.slots, h) && Consistent(w.slots) && Ranked(w.slots, w.links, rank)
    requires w.slots[h].value.obj.Some? && |LinksOf(w.links, w.slots[h].value.obj.value)| > 0
    requires Teardown(UnlinkFirst(w, h, rank).0, w2, rank) && Teardown(w2, r, rank)
    requires MeshesDistinct(UnlinkFirst(w, h, rank).0.slots) ==> TakesAttached(UnlinkFirst(w, h, rank).0, w2)
    requires !Live(w2.slots, UnlinkFirst(w, h, rank).1)
    requires MeshesDistinct(w2.slots) ==> TakesAttached(w2, r)
    ensures MeshesDistinct(w.slots) ==> TakesAttached(w, r)
  {
    if MeshesDistinct(w.slots) {
      var w1 := UnlinkFirst(w, h, rank).0;
      UnlinkFirstTakesAttached(w, h, rank, w2);
      ShrinkKeepsDistinct(w.slots, w2.slots);
      TakesAttachedChain(w, w2, r);
    }
  }

  lemma PrefixTrans(a: seq<SaveOp>, b: seq<SaveOp>, c: seq<SaveOp>)
    requires |a| <= |b| <= |c| && b[..|a|] == a && c[..|b|] == b
    ensures c[..|a|] == a
  {
    assert c[..|a|] == c[..|b|][..|a|];
  }

  /** One round of the loop before the recursive call: the entity of the
      first entry, ranked below `h`, and the list with its mesh unlinked. */
  function UnlinkFirst(w: World, h: int, rank: map<int, nat>): (r: (World, int))
    requires Live(w.slots, h) && Consistent(w.slots) && Ranked(w.slots, w.links, rank)
    requires w.slots[h].value.obj.Some? && |LinksOf(w.links, w.slots[h].value.obj.value)| > 0
    ensures r.0.slots == w.slots && Teardown(w, r.0, rank)
    ensures Live(w.slots, r.1) && r.1 in rank && rank[r.1] < rank[h]
    ensures r.1 == LinksOf(w.links, w.slots[h].value.obj.value)[0].io
    ensures forall m, x :: x in LinksOf(w.links, m) && x !in LinksOf(r.0.links, m) ==>
      m == w.slots[h].value.obj.value && x.obj == w.slots[r.1].value.obj
  {
    var m := w.slots[h].value.obj.value;
    var first := LinksOf(w.links, m)[0];
    assert ValidLink(w.slots, first);
    var c := first.io;
    UnlinkKeepsRanked(w, m, w.slots[c].value.obj.value, rank);
    SameEntities(w, w.(links := w.links[m := Unlink(LinksOf(w.links, m), w.slots[c].value.obj.value)]));
    (w.(links := w.links[m := Unlink(LinksOf(w.links, m), w.slots[c].value.obj.value)]), c)
  }

  lemma UnlinkKeepsRanked(w: World, m: nat, vm: nat, rank: map<int, nat>)
    requires Ranked(w.slots, w.links, rank)
    ensures Ranked(w.slots, w.links[m := Unlink(LinksOf(w.links, m), vm)], rank)
    ensures forall m', x :: x in LinksOf(w.links[m := Unlink(LinksOf(w.links, m), vm)], m') ==> x in LinksOf(w.links, m')
  {
    var lb := w.links[m := Unlink(LinksOf(w.links, m), vm)];
    forall m', x | x in LinksOf(lb, m') ensures x in LinksOf(w.links, m') {
    }
    forall i, x | Live(w.slots, i) && w.slots[i].value.obj.Some? && x in LinksOf(lb, w.slots[i].value.obj.value)
      ensures Live(w.slots, x.io)
    {
      assert x in LinksOf(w.links, w.slots[i].value.obj.value);
      assert ValidLink(w.slots, x);
    }
    RankedCarriesOver(w.slots, w.links, w.slots, lb, rank);
  }

  /** `Entity::destroyOne`: one item off a stack of more than one, which
      changes nothing else, or the whole entity, destroyed as `destroy`
      does. */
  function DestroyOne(w: World, h: int, rank: map<int, nat>): (r: World)
    requires Live(w.slots, h) && Consistent(w.slots) && Ranked(w.slots, w.links, rank)
    ensures var e := w.slots[h].value;
      && (IoItem in e.flags && e.item.value.count > 1 ==>
            && Live(r.slots, h) && r.slots[h].value == e.(item := Some(ItemData(e.item.value.count - 1)))
            && |r.slots| == |w.slots| && (forall i :: 0 <= i < |w.slots| && i != h ==> r.slots[i] == w.slots[i])
            && r.links == w.links && r.refs == w.refs && r.saves == w.saves && r.trace == w.trace)
      && (!(IoItem in e.flags && e.item.value.count > 1) ==>
            && !Live(r.slots, h) && Teardown(w, r, rank)
            && (forall i :: Live(w.slots, i) && i in rank && rank[i] > rank[h] ==> Live(r.slots, i))
            && (e.id.instance > 0 && IoNoSave !in e.flags ==>
                  |r.saves| > |w.saves| && r.saves[|w.saves|] == (if e.scriptload then RemoveRecord(e.id) else StoreDeletion(e.id)))
            && (MeshesDistinct(w.slots) ==> TakesAttached(w, r)))
    ensures Consistent(r.slots) && Ranked(r.slots, r.links, rank)
  {
    var e := w.slots[h].value;
    if IoItem in e.flags && e.item.value.count > 1 then
      var s := w.slots[h := Some(e.(item := Some(ItemData(e.item.value.count - 1))))];
      assert Shrinks(w.slots, s) by {
        forall i | 0 <= i < |s| && s[i].Some? ensures w.slots[i].Some? && SameFrame(w.slots[i].value, s[i].value) {
        }
      }
      SameLiveKeepsRanked(w.slots, s, w.links, rank);
      w.(slots := s)
    else Destroy(w, h, rank)
  }

  /** `destroyOne` called `k` times on a stack of more than `k` items:
      the entity survives with `k` items fewer. */
  function DestroyOneTimes(w: World, h: int, rank: map<int, nat>, k: nat): (r: World)
    requires Live(w.slots, h) && Consistent(w.slots) && Ranked(w.slots, w.links, rank)
    requires IoItem in w.slots[h].value.flags && w.slots[h].value.item.value.count > k
    ensures Live(r.slots, h) && Consistent(r.slots) && Ranked(r.slots, r.links, rank)
    ensures r.slots[h].value == w.slots[h].value.(item := Some(ItemData(w.slots[h].value.item.value.count - k)))
    decreases k
  {
    if k == 0 then w else DestroyOneTimes(DestroyOne(w, h, rank), h, rank, k - 1)
  }

  /** A stack of `n` items survives `n - 1` calls of `destroyOne` and is
      destroyed by the `n`-th, never earlier. */
  lemma StackCountdown(w: World, h: int, rank: map<int, nat>, n: nat)
    requires Live(w.slots, h) && Consistent(w.slots) && Ranked(w.slots, w.links, rank)
    requires IoItem in w.slots[h].value.flags && w.slots[h].value.item.value.count == n && n >= 1
    ensures forall k :: 0 <= k < n ==> Live(DestroyOneTimes(w, h, rank, k).slots, h)
    ensures !Live(DestroyOne(DestroyOneTimes(w, h, rank, n - 1), h, rank).slots, h)
  {
    var r := DestroyOneTimes(w, h, rank, n - 1);
    assert r.slots[h].value.item.value.count == 1;
  }

}
