/** The state changes of the script commands `inventory ...`, `weapon` and
    `setweapon` from `ScriptedInventory.cpp`.

    The world holds the item entities by handle, the inventory of the
    entity running the script, the queue of delayed destructions and the
    items put in front of the player. Loading an item file, the entity
    manager's choice of a handle, whether an inventory accepts an item,
    and the "forbid creation" switch are parameters. A script argument is
    given both as its word and as the number `getFloat` reads from it,
    already truncated toward zero as the cast to `long` does. */
module ScriptedInventory {

  import opened Options
  import opened Text

  datatype Result = Success | Failed

  datatype IoFlag = IoItem | IoGold | IoNpc | IoFreezeScript | IoOther(bit: nat)

  datatype Show = MegaHide | OtherShow(code: nat)

  /** The part of an item entity the commands touch. */
  datatype Item = Item(
    flags: set<IoFlag>,
    count: int,
    maxcount: int,
    price: int,
    show: Show,
    scriptload: int,
    initSent: bool)

  /** An inventory grid and the item in each occupied slot, in slot order;
      an item covering several slots is listed once per slot. */
  datatype Inventory = Inventory(width: nat, height: nat, contents: seq<nat>)

  datatype World = World(
    items: map<nat, Item>,
    inventory: Option<Inventory>,
    doomed: seq<nat>,
    inFront: seq<nat>,
    lastSpawned: Option<nat>)

  /** Every handle the world lists (in the inventory, in front of the
      player, queued for destruction) names a live item. */
  predicate Valid(w: World) {
    && (w.inventory.Some? ==> forall k :: 0 <= k < |w.inventory.value.contents| ==> w.inventory.value.contents[k] in w.items)
    && (forall k :: 0 <= k < |w.inFront| ==> w.inFront[k] in w.items)
    && (forall k :: 0 <= k < |w.doomed| ==> w.doomed[k] in w.items)
  }

  predicate NoDup(s: seq<nat>) {
    forall i, j :: 0 <= i < j < |s| ==> s[i] != s[j]
  }

  // ---------------------------------------------------------------------
  // Sub-command registration and dispatch

  datatype SubCommand =
    | Create | Skin | PlayerAddFromScene | PlayerAdd(multi: bool)
    | AddFromScene | Add(multi: bool) | Destroy | Open | Close

  /** `addCommand`: registering a name twice violates an assertion, so a
      new name is required. */
  function Register(table: map<string, SubCommand>, name: string, c: SubCommand): (r: map<string, SubCommand>)
    requires name !in table
    ensures name in r && r[name] == c
  {
    table[name := c]
  }

  /** The names the `inventory` command registers, in order, and the
      sub-command registered under each. */
  const Names: seq<string> := ["create", "skin", "playeraddfromscene", "playeradd", "playeraddmulti",
                               "addfromscene", "add", "addmulti", "destroy", "open", "close"]
  const Subs: seq<SubCommand> := [Create, Skin, PlayerAddFromScene, PlayerAdd(false), PlayerAdd(true),
                                  AddFromScene, Add(false), Add(true), Destroy, Open, Close]

  /** Name `i` differs from every name registered before it. */
  predicate NewName(i: nat)
    requires i < |Names|
  {
    forall j :: 0 <= j < i ==> Names[j] != Names[i]
  }

  /** The first `k` registrations of the constructor. */
  function Registered(k: nat): (m: map<string, SubCommand>)
    requires k <= |Names|
    requires forall i :: 0 <= i < k ==> NewName(i)
    ensures forall n :: n in m <==> exists i :: 0 <= i < k && Names[i] == n
  {
    if k == 0 then map[] else Register(Registered(k - 1), Names[k - 1], Subs[k - 1])
  }

  /** The constructor's registrations never trip the duplicate-name
      assertion: every name is new when it is registered. */
  lemma RegistrationSucceeds()
    ensures forall i :: 0 <= i < |Names| ==> NewName(i)
  {
    assert forall i :: 0 <= i < |Names| ==> |Names[i]| == [6, 4, 18, 9, 14, 12, 3, 8, 7, 4, 5][i];
    assert Names[9] != Names[1] by { assert Names[9][0] != Names[1][0]; }
  }

  /** The registered table. */
  function Commands(): (m: map<string, SubCommand>)
    ensures forall n :: n in m <==> n in Names
  {
    RegistrationSucceeds();
    Registered(|Names|)
  }

  /** Each name is registered with its own sub-command. */
  lemma {:induction false} RegisteredAt(k: nat, i: nat)
    requires k <= |Names| && forall j :: 0 <= j < k ==> NewName(j)
    requires i < k
    ensures Registered(k)[Names[i]] == Subs[i]
  {
    if i < k - 1 {
      RegisteredAt(k - 1, i);
      assert Names[i] != Names[k - 1] by { assert NewName(k - 1); }
    }
  }

  /** No registered name holds an underscore, so stripping underscores
      from a word never makes a registered name unreachable. */
  lemma NamesHaveNoUnderscore()
    ensures forall i :: 0 <= i < |Names| ==> '_' !in Names[i]
  {
    assert forall i :: 0 <= i < |Names| ==> forall k :: 0 <= k < |Names[i]| ==> 'a' <= Names[i][k] <= 'z';
  }

  /** The lookup in `InventoryCommand::execute`: every underscore is
      removed from the word before it is looked up. */
  function Resolve(word: string): (r: Option<SubCommand>)
  {
    var name := Remove(word, '_');
    if name in Commands() then Some(Commands()[name]) else None
  }

  /** A word names a sub-command exactly when, without its underscores, it
      is one of the registered names, and then it names the sub-command
      registered under that name. */
  lemma ResolveFindsRegistered(word: string)
    ensures Resolve(word).Some? <==> Remove(word, '_') in Names
    ensures forall i :: 0 <= i < |Names| && Names[i] == Remove(word, '_') ==> Resolve(word) == Some(Subs[i])
  {
    forall i | 0 <= i < |Names| && Names[i] == Remove(word, '_') ensures Resolve(word) == Some(Subs[i]) {
      RegistrationSucceeds();
      RegisteredAt(|Names|, i);
    }
  }

  /** Underscores never matter: a word and its underscore-free form name
      the same sub-command. */
  lemma ResolveIgnoresUnderscores(word: string)
    ensures Resolve(word) == Resolve(Remove(word, '_'))
  {
    RemoveIdempotent(word, '_');
  }

  /** Every registered sub-command is reachable under its own name. */
  lemma EveryCommandReachable(i: nat)
    requires i < |Names|
    ensures Resolve(Names[i]) == Some(Subs[i])
  {
    NamesHaveNoUnderscore();
    RemoveAbsent(Names[i], '_');
    RegistrationSucceeds();
    RegisteredAt(|Names|, i);
  }

  /** The registration slots of `add` and `addmulti`. */
  lemma AddSlots()
    ensures Names[6] == "add" && Subs[6] == Add(false)
    ensures Names[7] == "addmulti" && Subs[7] == Add(true)
  {
  }

  lemma AddMultiUnderscore()
    ensures Remove("add_multi", '_') == "addmulti"
  {
    var a, b := "add", "multi";
    assert forall k :: 0 <= k < |a| ==> a[k] != '_';
    assert forall k :: 0 <= k < |b| ==> b[k] != '_';
    RemoveJoin(a, b, '_');
    assert "add_multi" == a + "_" + b;
    assert a + b == "addmulti";
  }

  /** `add_multi` is `addmulti`; `add` is the single form. */
  lemma AddMultiSpellings()
    ensures Resolve("add_multi") == Resolve("addmulti") == Some(Add(true))
    ensures Resolve("add") == Some(Add(false))
  {
    AddSlots();
    EveryCommandReachable(7);
    EveryCommandReachable(6);
    AddMultiUnderscore();
    ResolveIgnoresUnderscores("add_multi");
  }

  // ---------------------------------------------------------------------
  // destroy and create

  /** What `destroyInventory` does to each contained item: an item's count
      becomes 1, and the entity is hidden for good and its script frozen. */
  function Doom(it: Item): (r: Item)
    ensures r.show == MegaHide && IoFreezeScript in r.flags
    ensures r.flags - {IoFreezeScript} == it.flags - {IoFreezeScript}
    ensures r.count == (if IoItem in it.flags then 1 else it.count)
    ensures r.maxcount == it.maxcount && r.price == it.price
    ensures r.scriptload == it.scriptload && r.initSent == it.initSent
  {
    it.(count := if IoItem in it.flags then 1 else it.count, show := MegaHide, flags := it.flags + {IoFreezeScript})
  }

  /** `s` with every occurrence of `x` removed. */
  function Without(s: seq<nat>, x: nat): (r: seq<nat>)
    ensures |r| <= |s| && x !in r
    ensures forall y :: y in r <==> y in s && y != x
  {
    if |s| == 0 then [] else (if s[0] == x then [] else [s[0]]) + Without(s[1..], x)
  }

  /** The slot loop: the item in the first slot is taken out of every
      inventory (so its other slots empty too), doomed and queued for
      delayed destruction; then the loop goes on with the slots left. */
  function DoomSlots(items: map<nat, Item>, doomed: seq<nat>, slots: seq<nat>): (r: (map<nat, Item>, seq<nat>))
    requires forall k :: 0 <= k < |slots| ==> slots[k] in items
    decreases |slots|
    ensures r.0.Keys == items.Keys
  {
    if |slots| == 0 then (items, doomed)
    else
      var x := slots[0];
      RestLive(items, slots);
      DoomSlots(items[x := Doom(items[x])], doomed + [x], Without(slots[1..], x))
  }

  /** The slots left after the first item is taken out hold live items. */
  lemma RestLive(items: map<nat, Item>, slots: seq<nat>)
    requires |slots| > 0 && forall k :: 0 <= k < |slots| ==> slots[k] in items
    ensures forall k :: 0 <= k < |Without(slots[1..], slots[0])| ==>
      Without(slots[1..], slots[0])[k] in items && Without(slots[1..], slots[0])[k] in slots
  {
    var rest := Without(slots[1..], slots[0]);
    forall k | 0 <= k < |rest| ensures rest[k] in items && rest[k] in slots {
      assert rest[k] in rest;
    }
  }

  /** Each slotted item is doomed exactly once; every other item is
      untouched. */
  lemma {:induction false} DoomSlotsItems(items: map<nat, Item>, doomed: seq<nat>, slots: seq<nat>)
    requires forall k :: 0 <= k < |slots| ==> slots[k] in items
    ensures var r := DoomSlots(items, doomed, slots).0;
      forall y :: y in items ==> r[y] == if y in slots then Doom(items[y]) else items[y]
    decreases |slots|
  {
    if |slots| > 0 {
      var x := slots[0];
      var rest := Without(slots[1..], x);
      RestLive(items, slots);
      var items' := items[x := Doom(items[x])];
      DoomSlotsItems(items', doomed + [x], rest);
      assert forall y :: y in slots <==> y == x || y in rest;
    }
  }

  /** The queue grows by each slotted item once, in order of first
      appearance. */
  lemma {:induction false} DoomSlotsQueue(items: map<nat, Item>, doomed: seq<nat>, slots: seq<nat>)
    requires forall k :: 0 <= k < |slots| ==> slots[k] in items
    ensures var q := DoomSlots(items, doomed, slots).1;
      && |q| >= |doomed| && q[..|doomed|] == doomed
      && (forall y :: y in q[|doomed|..] <==> y in slots)
      && NoDup(q[|doomed|..])
    decreases |slots|
  {
    if |slots| > 0 {
      var x := slots[0];
      var rest := Without(slots[1..], x);
      RestLive(items, slots);
      var items' := items[x := Doom(items[x])];
      DoomSlotsQueue(items', doomed + [x], rest);
      var q := DoomSlots(items', doomed + [x], rest).1;
      assert q == DoomSlots(items, doomed, slots).1;
      var n := |doomed|;
      assert q[..n] == q[..n + 1][..n];
      assert q[n..] == [x] + q[n + 1..];
      assert forall y :: y in slots <==> y == x || y in rest;
    }
  }

  /** `DestroyCommand::destroyInventory`: nothing without an inventory;
      otherwise every contained item is doomed and queued, and the
      inventory is gone. */
  function DestroyInventory(w: World): (r: World)
    requires Valid(w)
    ensures r.inventory.None? && Valid(r)
    ensures r.items.Keys == w.items.Keys
    ensures r.inFront == w.inFront && r.lastSpawned == w.lastSpawned
    ensures w.inventory.None? ==> r == w
  {
    match w.inventory
    case None => w
    case Some(inv) =>
      QueueLive(w.items, w.doomed, inv.contents);
      var (items, doomed) := DoomSlots(w.items, w.doomed, inv.contents);
      w.(items := items, doomed := doomed, inventory := None)
  }

  /** The queue only ever names live items. */
  lemma QueueLive(items: map<nat, Item>, doomed: seq<nat>, slots: seq<nat>)
    requires forall k :: 0 <= k < |slots| ==> slots[k] in items
    requires forall k :: 0 <= k < |doomed| ==> doomed[k] in items
    ensures forall k :: 0 <= k < |DoomSlots(items, doomed, slots).1| ==> DoomSlots(items, doomed, slots).1[k] in items
  {
    DoomSlotsQueue(items, doomed, slots);
    var q := DoomSlots(items, doomed, slots).1;
    forall k | 0 <= k < |q| ensures q[k] in items {
      if k < |doomed| {
        assert q[k] == q[..|doomed|][k];
      } else {
        assert q[k] == q[|doomed|..][k - |doomed|];
        assert q[k] in q[|doomed|..];
      }
    }
  }

  /** After `destroy`, exactly the items that were in the inventory are
      doomed and newly queued for destruction, each once; all other items
      are unchanged. */
  lemma DestroyDoomsContents(w: World)
    requires Valid(w) && w.inventory.Some?
    ensures var r := DestroyInventory(w); var slots := w.inventory.value.contents;
      && (forall y :: y in w.items ==> r.items[y] == if y in slots then Doom(w.items[y]) else w.items[y])
      && |r.doomed| >= |w.doomed| && r.doomed[..|w.doomed|] == w.doomed
      && (forall y :: y in r.doomed[|w.doomed|..] <==> y in slots)
      && NoDup(r.doomed[|w.doomed|..])
  {
    DoomSlotsItems(w.items, w.doomed, w.inventory.value.contents);
    DoomSlotsQueue(w.items, w.doomed, w.inventory.value.contents);
  }

  /** A second `destroy` changes nothing. */
  lemma DestroyIdempotent(w: World)
    requires Valid(w)
    ensures DestroyInventory(DestroyInventory(w)) == DestroyInventory(w)
  {
  }

  /** `CreateCommand`: any inventory is destroyed first, then a fresh empty
      3 by 11 one is installed. */
  function CreateInventory(w: World): (r: World)
    requires Valid(w)
    ensures r.inventory == Some(Inventory(3, 11, [])) && Valid(r)
    ensures r.(inventory := None) == DestroyInventory(w)
  {
    DestroyInventory(w).(inventory := Some(Inventory(3, 11, [])))
  }

  /** Creating twice is creating once: the second `create` destroys an
      empty inventory, which touches no item. */
  lemma CreateIdempotent(w: World)
    requires Valid(w)
    ensures CreateInventory(CreateInventory(w)) == CreateInventory(w)
  {
    var c := CreateInventory(w);
    assert DoomSlots(c.items, c.doomed, []) == (c.items, c.doomed);
  }

  // ---------------------------------------------------------------------
  // add and addmulti

  /** A script argument: its word, and the number `getFloat` reads from it
      cast to `long`. */
  datatype Arg = Arg(word: string, number: int)

  /** The arguments of the running script line and how many were read. */
  datatype Ctx = Ctx(args: seq<Arg>, pos: nat)

  /** Reads the next argument; past the end it is the empty word. */
  function Next(c: Ctx): (r: (Arg, Ctx))
    ensures r.1.args == c.args && r.1.pos == c.pos + 1
  {
    (if c.pos < |c.args| then c.args[c.pos] else Arg("", 0), c.(pos := c.pos + 1))
  }

  /** The conversion of a `long` to `short`, two's complement. */
  function Short(n: int): (s: int)
    ensures -0x8000 <= s < 0x8000
    ensures -0x8000 <= n < 0x8000 ==> s == n
    ensures (s - n) % 0x1_0000 == 0
  {
    (n + 0x8000) % 0x1_0000 - 0x8000
  }

  /** `std::max(short(count), short(1))`. */
  function ClampCount(n: int): (c: int)
    ensures 1 <= c < 0x8000
    ensures 1 <= n < 0x8000 ==> c == n
    ensures -0x8000 <= n <= 0 ==> c == 1
  {
    var s := Short(n);
    if s < 1 then 1 else s
  }

  /** The multi form's count: gold takes it as its price, any other item
      as its count (clamped) with a stack limit of 9999. */
  function Configure(it: Item, count: int): (r: Item)
    ensures r.flags == it.flags
    ensures IoGold in it.flags ==> r.price == count && r.(price := it.price) == it
    ensures IoGold !in it.flags ==>
      && r.maxcount == 9999 && 1 <= r.count < 0x8000
      && (1 <= count < 0x8000 ==> r.count == count)
      && (-0x8000 <= count < 1 ==> r.count == 1)
      && r.(count := it.count, maxcount := it.maxcount) == it
  {
    if IoGold in it.flags then it.(price := count) else it.(maxcount := 9999, count := ClampCount(count))
  }

  /** The insertion at the end of `add`: into the inventory when it takes
      the item, else in front of the player. */
  function Place(w: World, x: nat, accepts: bool): (r: World)
    requires w.inventory.Some?
  {
    if accepts then w.(inventory := Some(w.inventory.value.(contents := w.inventory.value.contents + [x])))
    else w.(inFront := w.inFront + [x])
  }

  datatype Outcome = Outcome(result: Result, world: World, ctx: Ctx)

  /** `AddCommand::execute`. `loaded` is the item `AddItem` creates from the
      file word (None when loading fails) and `handle` its new handle;
      `forbid` is `FORBID_SCRIPT_IO_CREATION`; `accepts` says whether the
      inventory takes the item. */
  function AddItemCommand(multi: bool, w: World, c: Ctx, forbid: bool, loaded: Option<Item>, handle: nat, accepts: bool): (o: Outcome)
    requires Valid(w) && handle !in w.items
    ensures Valid(o.world)
    ensures o.ctx.args == c.args && o.ctx.pos == c.pos + (if multi then 2 else 1)
  {
    var (_, c1) := Next(c);
    if forbid || w.inventory.None? then
      Outcome(Failed, w, if multi then Next(c1).1 else c1)
    else
      var (count, c2) := if multi then (Next(c1).0.number, Next(c1).1) else (-1, c1);
      match loaded
      case None => Outcome(Failed, w, c2)
      case Some(it) =>
        var w1 := w.(items := w.items[handle := it]);
        if count == 0 then Outcome(Success, w1, c2)
        else
          var it1 := it.(scriptload := 1, initSent := true);
          var it2 := if multi then Configure(it1, count) else it1;
          Outcome(Success, Place(w1.(items := w1.items[handle := it2], lastSpawned := Some(handle)), handle, accepts), c2)
  }

  /** `add` fails, changing nothing, when creation is forbidden, the
      entity has no inventory or the item cannot be loaded; it succeeds
      otherwise. */
  lemma AddFailsExactly(multi: bool, w: World, c: Ctx, forbid: bool, loaded: Option<Item>, handle: nat, accepts: bool)
    requires Valid(w) && handle !in w.items
    ensures var o := AddItemCommand(multi, w, c, forbid, loaded, handle, accepts);
      && (o.result == Failed <==> forbid || w.inventory.None? || loaded.None?)
      && (o.result == Failed ==> o.world == w)
  {
  }

  /** `addmulti` with a count of 0 creates the item but neither
      initialises nor places it. */
  lemma AddZeroCount(w: World, c: Ctx, loaded: Option<Item>, handle: nat, accepts: bool)
    requires Valid(w) && handle !in w.items && w.inventory.Some? && loaded.Some?
    requires Next(Next(c).1).0.number == 0
    ensures var o := AddItemCommand(true, w, c, false, loaded, handle, accepts);
      && o.result == Success
      && o.world == w.(items := w.items[handle := loaded.value])
      && handle !in o.world.inventory.value.contents && handle !in o.world.inFront
  {
    assert handle !in w.inventory.value.contents && handle !in w.inFront;
  }

  /** Any other successful `add` initialises the new item, records it as
      the last spawned entity and places it exactly once: in the inventory
      when that takes it, else in front of the player. */
  lemma AddPlacesOnce(multi: bool, w: World, c: Ctx, loaded: Option<Item>, handle: nat, accepts: bool)
    requires Valid(w) && handle !in w.items && w.inventory.Some? && loaded.Some?
    requires multi ==> Next(Next(c).1).0.number != 0
    ensures var o := AddItemCommand(multi, w, c, false, loaded, handle, accepts);
      var r := o.world;
      && o.result == Success && r.lastSpawned == Some(handle)
      && handle in r.items && r.items[handle].scriptload == 1 && r.items[handle].initSent
      && (forall y :: y in w.items ==> y in r.items && r.items[y] == w.items[y])
      && r.inventory.Some?
      && (handle in r.inventory.value.contents <==> accepts)
      && (handle in r.inFront <==> !accepts)
      && r.inventory.value.contents[..|w.inventory.value.contents|] == w.inventory.value.contents
      && r.inFront[..|w.inFront|] == w.inFront
  {
    assert handle !in w.inventory.value.contents && handle !in w.inFront;
  }

  /** The counts `addmulti` sets: gold gets the count as its price; any
      other item a count between 1 and 32767, the given one when it is in
      that range, and a stack limit of 9999. */
  lemma AddMultiCounts(w: World, c: Ctx, loaded: Option<Item>, handle: nat, accepts: bool)
    requires Valid(w) && handle !in w.items && w.inventory.Some? && loaded.Some?
    requires Next(Next(c).1).0.number != 0
    ensures var n := Next(Next(c).1).0.number;
      var it := AddItemCommand(true, w, c, false, loaded, handle, accepts).world.items[handle];
      && (IoGold in loaded.value.flags ==> it.price == n && it.count == loaded.value.count)
      && (IoGold !in loaded.value.flags ==>
            it.maxcount == 9999 && 1 <= it.count < 0x8000
            && (1 <= n < 0x8000 ==> it.count == n)
            && (-0x8000 <= n < 1 ==> it.count == 1)
            && it.price == loaded.value.price)
  {
  }

  /** An item `add` put into the inventory is doomed by a later `destroy`. */
  lemma AddThenDestroy(multi: bool, w: World, c: Ctx, loaded: Option<Item>, handle: nat)
    requires Valid(w) && handle !in w.items && w.inventory.Some? && loaded.Some?
    requires multi ==> Next(Next(c).1).0.number != 0
    ensures var a := AddItemCommand(multi, w, c, false, loaded, handle, true).world;
      var r := DestroyInventory(a);
      && r.items[handle] == Doom(a.items[handle]) && r.items[handle].show == MegaHide
      && handle in r.doomed
  {
    AddPlacesOnce(multi, w, c, loaded, handle, true);
    var a := AddItemCommand(multi, w, c, false, loaded, handle, true).world;
    DestroyDoomsContents(a);
    var r := DestroyInventory(a);
    assert handle in r.doomed[|a.doomed|..];
  }

  // ---------------------------------------------------------------------
  // The top-level `inventory` command

  /** The parameters standing for what the command cannot see. */
  datatype Env = Env(forbid: bool, loaded: Option<Item>, handle: nat, accepts: bool)

  /** `InventoryCommand::execute`: reads the sub-command word and runs
      the sub-command. */
  function Execute(w: World, c: Ctx, env: Env): (o: Option<Outcome>)
    requires Valid(w) && env.handle !in w.items
  {
    var (a, c1) := Next(c);
    Run(w, a.word, c1, env)
  }

  /** Runs the sub-command named by `word` on the arguments after it. */
  function Run(w: World, word: string, c: Ctx, env: Env): (o: Option<Outcome>)
    requires Valid(w) && env.handle !in w.items
    ensures Remove(word, '_') !in Names ==> o == Some(Outcome(Failed, w, c))
  {
    ResolveFindsRegistered(word);
    RunCommand(w, Resolve(word), c, env)
  }

  /** Runs a looked-up sub-command: an unknown name fails and changes
      nothing; `destroy` and `create` always succeed. None for the
      sub-commands whose state changes are not modelled (skin, open, close
      and the player and scene forms). */
  function RunCommand(w: World, sub: Option<SubCommand>, c: Ctx, env: Env): (o: Option<Outcome>)
    requires Valid(w) && env.handle !in w.items
    ensures sub.None? ==> o == Some(Outcome(Failed, w, c))
    ensures sub == Some(Destroy) ==> o == Some(Outcome(Success, DestroyInventory(w), c))
    ensures sub == Some(Create) ==> o == Some(Outcome(Success, CreateInventory(w), c))
    ensures o.Some? ==> Valid(o.value.world)
  {
    match sub
    case None => Some(Outcome(Failed, w, c))
    case Some(Destroy) => Some(Outcome(Success, DestroyInventory(w), c))
    case Some(Create) => Some(Outcome(Success, CreateInventory(w), c))
    case Some(Add(multi)) => Some(AddItemCommand(multi, w, c, env.forbid, env.loaded, env.handle, env.accepts))
    case Some(_) => None
  }

  /** A word with underscores inserted runs the same sub-command with the
      same effect. */
  lemma RunIgnoresUnderscores(w: World, word: string, c: Ctx, env: Env)
    requires Valid(w) && env.handle !in w.items
    ensures Run(w, word, c, env) == Run(w, Remove(word, '_'), c, env)
  {
    ResolveIgnoresUnderscores(word);
  }

  // ---------------------------------------------------------------------
  // weapon and setweapon

  /** The NPC state `weapon` touches: `weaponinhand` (0 holstered, 1 in
      hand, -1 drawing, 2 holstering) and the animation on layer 1. */
  datatype Npc = Npc(weaponInHand: int, layer1: Option<nat>)

  /** `WeaponCommand`: drawing starts only from holstered, holstering only
      from in hand; starting either stops the layer-1 animation. */
  function Weapon(draw: bool, n: Npc): (r: Npc)
  {
    if draw && n.weaponInHand == 0 then Npc(-1, None)
    else if !draw && n.weaponInHand == 1 then Npc(2, None)
    else n
  }

  /** The command changes the NPC exactly on the two transitions, and then
      always to the in-between state with no layer-1 animation. */
  lemma WeaponTransitions(draw: bool, n: Npc)
    ensures var r := Weapon(draw, n);
      && (r != n ==> r.layer1.None? && (r.weaponInHand == -1 || r.weaponInHand == 2))
      && (r.weaponInHand != n.weaponInHand <==> (draw && n.weaponInHand == 0) || (!draw && n.weaponInHand == 1))
      && (r.weaponInHand == -1 <==> n.weaponInHand == -1 || (draw && n.weaponInHand == 0))
      && (r.weaponInHand == 2 <==> n.weaponInHand == 2 || (!draw && n.weaponInHand == 1))
  {
  }

  /** Repeating the command changes nothing more. */
  lemma WeaponIdempotent(draw: bool, n: Npc)
    ensures Weapon(draw, Weapon(draw, n)) == Weapon(draw, n)
  {
  }

  /** Drawing and holstering commute: from any state the two commands
      lead to the same state in either order. */
  lemma WeaponCommutes(n: Npc)
    ensures Weapon(true, Weapon(false, n)) == Weapon(false, Weapon(true, n))
  {
  }

  datatype GameFlag = HideWeapon | OtherGameFlag(bit: nat)

  /** `SetWeaponCommand`: the hide-weapon flag is cleared, then set again
      exactly when the `h` option is given. */
  function SetWeaponFlags(flags: set<GameFlag>, options: set<char>): (r: set<GameFlag>)
    ensures HideWeapon in r <==> 'h' in options
    ensures r - {HideWeapon} == flags - {HideWeapon}
  {
    (flags - {HideWeapon}) + (if 'h' in options then {HideWeapon} else {})
  }

  /** Only the last `setweapon` counts for the flag. */
  lemma SetWeaponLastWins(flags: set<GameFlag>, a: set<char>, b: set<char>)
    ensures SetWeaponFlags(SetWeaponFlags(flags, a), b) == SetWeaponFlags(flags, b)
  {
  }

}
