/** When a link that a controller's list names keeps its bytes over the refresh of that list
    (lsm_bluetooth_traffic_refresh_connections in src/bluetooth_traffic.c): counted in advance. */
module HciListed {
  import opened Basics
  import opened HciFrame
  import opened HciLedger
  import opened HciRefresh

  // ----- Counting idle slots -----

  function IdleOne(slot: Slot): nat {
    if slot.used && !slot.active then 1 else 0
  }

  /** Slots that belong to a link that is not active. */
  function Idle(slots: seq<Slot>): nat {
    if slots == [] then 0 else Idle(slots[..|slots| - 1]) + IdleOne(slots[|slots| - 1])
  }

  lemma {:induction false} IdleAfterUpdate(slots: seq<Slot>, i: nat, slot: Slot)
    requires i < |slots|
    ensures Idle(slots[i := slot]) == Idle(slots) - IdleOne(slots[i]) + IdleOne(slot)
  {
    var n := |slots| - 1;
    if i == n {
      assert slots[i := slot][..n] == slots[..n];
    } else {
      assert slots[i := slot][..n] == slots[..n][i := slot];
      IdleAfterUpdate(slots[..n], i, slot);
    }
  }

  lemma {:induction false} IdleInFront(slots: seq<Slot>, at: nat, slot: Slot, i: nat)
    requires at < |slots| && i <= |slots|
    ensures Idle(slots[at := slot][..i]) ==
      if at < i then Idle(slots[..i]) - IdleOne(slots[at]) + IdleOne(slot) else Idle(slots[..i])
  {
    if at < i {
      assert slots[at := slot][..i] == slots[..i][at := slot];
      IdleAfterUpdate(slots[..i], at, slot);
    } else {
      assert slots[at := slot][..i] == slots[..i];
    }
  }

  lemma {:induction false} IdleExists(slots: seq<Slot>)
    ensures Idle(slots) > 0 <==> exists j :: 0 <= j < |slots| && slots[j].used && !slots[j].active
  {
    if slots != [] {
      var n := |slots| - 1;
      IdleExists(slots[..n]);
      if j :| 0 <= j < n && slots[..n][j].used && !slots[..n][j].active {
        assert slots[j].used && !slots[j].active;
      }
    }
  }

  // ----- What a list demands -----

  /** The handle was not listed before, and its slot comes before slot i. */
  ghost predicate IsBelow(links: seq<Slot>, controller: nat, earlier: seq<Connection>, handle: nat, i: nat) {
    !Lists(earlier, handle) && Find(links, controller, handle).Some? && Find(links, controller, handle).value < i
  }

  /** How many different handles of the list have their slot before slot i. */
  ghost function Below(links: seq<Slot>, controller: nat, connections: seq<Connection>, i: nat): nat {
    if connections == [] then 0 else
    var n := |connections| - 1;
    Below(links, controller, connections[..n], i) +
    if IsBelow(links, controller, connections[..n], connections[n].handle, i) then 1 else 0
  }

  function Over(n: nat, room: nat): nat {
    if n <= room then 0 else n - room
  }

  /** How many slots before slot i the list has use for: those of the links it names, and one for
      each new link beyond the unused slots. */
  ghost function Demand(links: seq<Slot>, controller: nat, connections: seq<Connection>, i: nat): nat {
    Below(links, controller, connections, i) + Over(News(links, controller, connections), Unused(links))
  }

  /** How many slots before slot i there are for it: those of inactive links, once the controller's
      own have been marked so. */
  function Supply(links: seq<Slot>, controller: nat, i: nat): nat
    requires i <= |links|
  {
    Idle(Deactivated(links, controller)[..i])
  }

  // ----- The table while slot i still waits -----

  predicate SameLink(a: Slot, b: Slot) {
    a.used && b.used && a.controller == b.controller && a.handle == b.handle
  }

  /** The slot of a link that was listed already. */
  ghost predicate IsListed(slot: Slot, controller: nat, connections: seq<Connection>) {
    slot.used && slot.active && slot.controller == controller && Lists(connections, slot.handle)
  }

  /** Every slot is as it was, or that of a listed link, and listed links have theirs. */
  ghost predicate Placed(before: seq<Slot>, table: seq<Slot>, controller: nat, connections: seq<Connection>) {
    && Sound(table) && |table| == |before|
    && (forall s :: 0 <= s < |table| ==> table[s] == before[s] || IsListed(table[s], controller, connections))
    && (forall handle :: Lists(connections, handle) ==>
          Find(table, controller, handle).Some? && table[Find(table, controller, handle).value].active)
  }

  /** Slot i and the links behind it are where they were; all links are while a slot is unused. */
  ghost predicate Undisturbed(before: seq<Slot>, table: seq<Slot>, i: int) {
    && 0 <= i < |table| == |before| && table[i] == before[i]
    && (forall s :: i < s < |table| && before[s].used ==> SameLink(before[s], table[s]))
    && (Unused(table) > 0 ==> forall s :: 0 <= s < |table| && before[s].used ==> SameLink(before[s], table[s]))
  }

  ghost predicate Counted(links: seq<Slot>, table: seq<Slot>, controller: nat, connections: seq<Connection>, i: nat) {
    && i <= |table| && i <= |links|
    && Idle(table[..i]) + Demand(links, controller, connections, i) == Supply(links, controller, i)
    && Unused(table) == Over(Unused(links), News(links, controller, connections))
  }

  ghost predicate Waits(links: seq<Slot>, table: seq<Slot>, controller: nat, connections: seq<Connection>, i: nat) {
    var before := Deactivated(links, controller);
    Placed(before, table, controller, connections) && Undisturbed(before, table, i) && Counted(links, table,
        controller, connections, i)
  }

  // ----- One bind -----

  /** What a bind writes where. */
  function Written(table: seq<Slot>, controller: nat, connection: Connection): Slot
    requires SlotFor(table, controller, connection.handle).Some?
  {
    Bound(Acquire(table, controller, connection.handle)[SlotFor(table, controller, connection.handle).value],
          AddressString(connection.address))
  }

  lemma BindWrites(table: seq<Slot>, controller: nat, connection: Connection)
    requires SlotFor(table, controller, connection.handle).Some?
    ensures var s, w := SlotFor(table, controller, connection.handle).value, Written(table, controller, connection);
      && s < |table| && Apply(table, Bind(controller, connection)) == table[s := w]
      && Holds(w, controller, connection.handle) && w.active
  {
    hide AddressString, EqualIgnoringCase;
  }

  lemma {:induction false} ListsMore(connections: seq<Connection>, connection: Connection, handle: nat)
    ensures Lists(connections + [connection], handle) <==> Lists(connections, handle) || connection.handle == handle
  {
    var longer := connections + [connection];
    assert longer[..|connections|] == connections;
    ListsOneMore(longer, handle);
    hide Lists;
  }

  /** Binding in a slot that is the link's own, or held no listed link, keeps every slot placed. */
  lemma {:induction false} PlacedNext(before: seq<Slot>, table: seq<Slot>, controller: nat, connections: seq<Connection>,
                                      connection: Connection, s: nat, w: Slot)
    requires Placed(before, table, controller, connections) && s < |table| && Sound(table[s := w])
    requires Holds(w, controller, connection.handle) && w.active
    requires Holds(table[s], controller, connection.handle) || !table[s].active
    ensures Placed(before, table[s := w], controller, connections + [connection])
  {
    var after, longer := table[s := w], connections + [connection];
    forall t | 0 <= t < |after| ensures after[t] == before[t] || IsListed(after[t], controller, longer) {
      ListsMore(connections, connection, after[t].handle);
    }
    forall handle | Lists(longer, handle)
      ensures Find(after, controller, handle).Some? && after[Find(after, controller, handle).value].active
    {
      ListsMore(connections, connection, handle);
      hide Lists, Sound;
      if handle == connection.handle {
        HoldsIsFound(after, s, controller, handle);
      } else {
        var f := Find(table, controller, handle).value;
        assert Holds(after[f], controller, handle);
        HoldsIsFound(after, f, controller, handle);
      }
    }
  }

  lemma {:induction false} UndisturbedNext(before: seq<Slot>, table: seq<Slot>, i: nat, s: nat, w: Slot)
    requires Undisturbed(before, table, i) && s < |table| && s != i && w.used
    requires before[s].used && (s > i || Unused(table) > 0) ==> SameLink(before[s], w)
    ensures Undisturbed(before, table[s := w], i)
  {
    UnusedAfterUpdate(table, s, w);
    hide SameLink, Unused;
  }

  lemma {:induction false} CountedNext(links: seq<Slot>, table: seq<Slot>, controller: nat, connections: seq<Connection>,
                                       connection: Connection, i: nat, s: nat, w: Slot)
    requires Counted(links, table, controller, connections, i) && s < |table| && w.used && w.active
    requires Demand(links, controller, connections + [connection], i) ==
      Demand(links, controller, connections, i) + if s < i then IdleOne(table[s]) else 0
    requires Over(Unused(links), News(links, controller, connections + [connection])) ==
      Unused(table) - if table[s].used then 0 else 1
    ensures Counted(links, table[s := w], controller, connections + [connection], i)
  {
    UnusedAfterUpdate(table, s, w);
    IdleInFront(table, s, w, i);
    hide Idle, Unused, Demand, News, Supply, Over;
  }

  /** What one more connection adds to the counts. */
  lemma {:induction false} CountsMore(links: seq<Slot>, controller: nat, connections: seq<Connection>,
      connection: Connection, i: nat)
    ensures News(links, controller, connections + [connection]) ==
      News(links, controller, connections) + if IsNew(links, controller, connections, connection.handle) then 1 else 0
    ensures Below(links, controller, connections + [connection], i) ==
      Below(links, controller, connections, i) +
      if IsBelow(links, controller, connections, connection.handle, i) then 1 else 0
  {
    var longer := connections + [connection];
    assert longer[..|longer| - 1] == connections && longer[|longer| - 1] == connection;
    hide IsNew, IsBelow;
  }

  lemma {:induction false} DemandMore(links: seq<Slot>, controller: nat, connections: seq<Connection>,
      connection: Connection, i: nat)
    ensures var room, news := Unused(links), News(links, controller, connections);
      var isNew := IsNew(links, controller, connections, connection.handle);
      var below := IsBelow(links, controller, connections, connection.handle, i);
      && Demand(links, controller, connections + [connection], i) ==
         Demand(links, controller, connections, i) + (if below then 1 else 0) + (if isNew && news >= room then 1 else 0)
      && Over(room, News(links, controller, connections + [connection])) ==
         Over(room, news) - if isNew && news < room then 1 else 0
  {
    CountsMore(links, controller, connections, connection, i);
    hide News, Below, Unused, IsNew, IsBelow;
  }

  // ----- One more connection while slot i waits -----

  /** Slot i is that of a link of the controller, and the connection is another one. */
  ghost predicate Elsewhere(links: seq<Slot>, controller: nat, connection: Connection, i: nat) {
    Sound(links) && i < |links| && Holds(links[i], controller, links[i].handle) && connection.handle != links[i].handle
  }

  lemma WaitsMeans(links: seq<Slot>, table: seq<Slot>, controller: nat, connections: seq<Connection>, i: nat)
    requires Waits(links, table, controller, connections, i)
    ensures Placed(Deactivated(links, controller), table, controller, connections)
    ensures Undisturbed(Deactivated(links, controller), table, i) && Counted(links, table, controller, connections, i)
    ensures Sound(table) && |table| == |links| && i < |table| && table[i] == Deactivated(links, controller)[i]
    ensures Unused(table) == Over(Unused(links), News(links, controller, connections))
    ensures Idle(table[..i]) + Demand(links, controller, connections, i) == Supply(links, controller, i)
  {
    hide Sound, IsListed, SameLink, Lists, Idle, Unused, Supply, Demand, News, Over;
  }

  /** The connection has a slot: it is its own, not slot i, and where it was before the refresh. */
  lemma {:induction false} OwnSlot(links: seq<Slot>, table: seq<Slot>, controller: nat, connections: seq<Connection>,
                                   connection: Connection, i: nat)
    requires Waits(links, table, controller, connections, i) && Elsewhere(links, controller, connection, i)
    requires Find(table, controller, connection.handle).Some?
    ensures var s := Find(table, controller, connection.handle).value;
      && s < |table| && s != i && Holds(table[s], controller, connection.handle)
      && (Lists(connections, connection.handle) ==> table[s].active)
      && (!Lists(connections, connection.handle) ==> !table[s].active && Find(links, controller, connection.handle) == Some(s))
      && (Deactivated(links, controller)[s].used && (s > i || Unused(table) > 0) ==>
          SameLink(Deactivated(links, controller)[s], table[s]))
  {
    var s := Find(table, controller, connection.handle).value;
    hide Sound, Lists, Counted, Unused;
    if !Lists(connections, connection.handle) {
      assert table[s] == Deactivated(links, controller)[s];
      HoldsIsFound(links, s, controller, connection.handle);
    }
  }

  lemma {:induction false} BindsOwn(links: seq<Slot>, table: seq<Slot>, controller: nat, connections: seq<Connection>,
                                    connection: Connection, i: nat)
    requires Waits(links, table, controller, connections, i) && Elsewhere(links, controller, connection, i)
    requires Find(table, controller, connection.handle).Some?
    ensures Waits(links, Apply(table, Bind(controller, connection)), controller, connections + [connection], i)
  {
    hide *;
    var before := Deactivated(links, controller);
    var s := Find(table, controller, connection.handle).value;
    WaitsMeans(links, table, controller, connections, i);
    OwnSlot(links, table, controller, connections, connection, i);
    SlotForOwn(table, controller, connection.handle);
    BindWrites(table, controller, connection);
    BindIsSound(table, controller, connection);
    var w := Written(table, controller, connection);
    SameLinkThrough(before[s], table[s], w, controller, connection.handle);
    PlacedNext(before, table, controller, connections, connection, s, w);
    UndisturbedNext(before, table, i, s, w);
    DemandMore(links, controller, connections, connection, i);
    OwnIsNotNew(links, controller, connections, connection.handle, i, s);
    IdleOneIs(table[s]);
    CountedNext(links, table, controller, connections, connection, i, s, w);
    WaitsIs(links, table[s := w], controller, connections + [connection], i);
  }

  lemma SlotForOwn(table: seq<Slot>, controller: nat, handle: nat)
    requires Find(table, controller, handle).Some?
    ensures SlotFor(table, controller, handle) == Find(table, controller, handle)
  {
  }

  lemma SameLinkThrough(a: Slot, b: Slot, w: Slot, controller: nat, handle: nat)
    requires Holds(b, controller, handle) && Holds(w, controller, handle)
    ensures SameLink(a, b) ==> SameLink(a, w)
    ensures w.used && b.used
  {
  }

  lemma IdleOneIs(slot: Slot)
    ensures IdleOne(slot) == if slot.used && !slot.active then 1 else 0
  {
  }

  lemma OwnIsNotNew(links: seq<Slot>, controller: nat, connections: seq<Connection>, handle: nat, i: nat, s: nat)
    requires Lists(connections, handle) || Find(links, controller, handle) == Some(s)
    ensures !IsNew(links, controller, connections, handle)
    ensures IsBelow(links, controller, connections, handle, i) <==> !Lists(connections, handle) && s < i
  {
    hide Lists;
  }

  lemma WaitsIs(links: seq<Slot>, table: seq<Slot>, controller: nat, connections: seq<Connection>, i: nat)
    requires Placed(Deactivated(links, controller), table, controller, connections)
    requires Undisturbed(Deactivated(links, controller), table, i) && Counted(links, table, controller, connections, i)
    ensures Waits(links, table, controller, connections, i)
  {
    hide Placed, Undisturbed, Counted;
  }

  /** The connection has no slot and one is unused: it is a new link. */
  lemma {:induction false} UnusedSlot(links: seq<Slot>, table: seq<Slot>, controller: nat, connections: seq<Connection>,
                                      connection: Connection, i: nat)
    requires Waits(links, table, controller, connections, i) && Elsewhere(links, controller, connection, i)
    requires Find(table, controller, connection.handle).None? && Unused(table) > 0
    ensures FirstUnused(table).Some?
    ensures var s := FirstUnused(table).value;
      && SlotFor(table, controller, connection.handle) == Some(s) && s < |table| && s != i
      && !table[s].used && !table[s].active && !Deactivated(links, controller)[s].used
    ensures IsNew(links, controller, connections, connection.handle) && !IsBelow(links, controller, connections, connection.handle, i)
  {
    RoomIsFound(table);
    hide Lists, Counted, Unused;
    if Find(links, controller, connection.handle).Some? {
      assert false;
    }
  }

  lemma {:induction false} BindsUnused(links: seq<Slot>, table: seq<Slot>, controller: nat, connections: seq<Connection>,
                                       connection: Connection, i: nat)
    requires Waits(links, table, controller, connections, i) && Elsewhere(links, controller, connection, i)
    requires Find(table, controller, connection.handle).None? && Unused(table) > 0
    ensures Waits(links, Apply(table, Bind(controller, connection)), controller, connections + [connection], i)
  {
    hide *;
    var before := Deactivated(links, controller);
    WaitsMeans(links, table, controller, connections, i);
    UnusedSlot(links, table, controller, connections, connection, i);
    var s := FirstUnused(table).value;
    BindWrites(table, controller, connection);
    BindIsSound(table, controller, connection);
    var w := Written(table, controller, connection);
    HoldsIs(w, controller, connection.handle);
    PlacedNext(before, table, controller, connections, connection, s, w);
    UndisturbedNext(before, table, i, s, w);
    DemandMore(links, controller, connections, connection, i);
    IdleOneIs(table[s]);
    OverIs(Unused(links), News(links, controller, connections));
    CountedNext(links, table, controller, connections, connection, i, s, w);
    WaitsIs(links, table[s := w], controller, connections + [connection], i);
  }

  lemma HoldsIs(slot: Slot, controller: nat, handle: nat)
    requires Holds(slot, controller, handle)
    ensures slot.used && slot.controller == controller && slot.handle == handle
  {
  }

  lemma OverIs(n: nat, room: nat)
    ensures Over(n, room) == if n <= room then 0 else n - room
  {
  }

  /** The connection has no slot and none is unused: slot i or one before it is the first inactive
      one, and the connection adds to the demand. */
  lemma {:induction false} InactiveSlot(links: seq<Slot>, table: seq<Slot>, controller: nat, connections: seq<Connection>,
                                        connection: Connection, i: nat)
    requires Waits(links, table, controller, connections, i) && Elsewhere(links, controller, connection, i)
    requires Find(table, controller, connection.handle).None? && Unused(table) == 0
    ensures FirstUnused(table).None? && FirstInactive(table).Some?
    ensures var s := FirstInactive(table).value;
      && SlotFor(table, controller, connection.handle) == Some(s) && s <= i < |table| && table[s].used && !table[s].active
      && (s == i ==> Idle(table[..i]) == 0)
    ensures IsNew(links, controller, connections, connection.handle) <==> !IsBelow(links, controller, connections, connection.handle, i)
  {
    hide *;
    WaitsMeans(links, table, controller, connections, i);
    WaitingIsInactive(links, controller, connection, i);
    NoRoomIsFull(table);
    FullTable(table, controller, connection.handle, i);
    NotBehind(links, table, controller, connections, connection, i);
    NewOrBelow(links, controller, connections, connection.handle, i);
  }

  lemma WaitingIsInactive(links: seq<Slot>, controller: nat, connection: Connection, i: nat)
    requires Elsewhere(links, controller, connection, i)
    ensures i < |links| && !Deactivated(links, controller)[i].active
  {
    hide Sound;
  }

  lemma {:induction false} FullTable(table: seq<Slot>, controller: nat, handle: nat, i: nat)
    requires (forall j :: 0 <= j < |table| ==> table[j].used) && i < |table| && !table[i].active
    requires Find(table, controller, handle).None?
    ensures FirstUnused(table).None? && FirstInactive(table).Some?
    ensures var s := FirstInactive(table).value;
      && SlotFor(table, controller, handle) == Some(s) && s <= i && table[s].used && !table[s].active
      && (s == i ==> Idle(table[..i]) == 0)
  {
    hide Idle, Holds;
    IdleExists(table[..i]);
  }

  lemma NotBehind(links: seq<Slot>, table: seq<Slot>, controller: nat, connections: seq<Connection>,
      connection: Connection, i: nat)
    requires Waits(links, table, controller, connections, i) && Elsewhere(links, controller, connection, i)
    requires Find(table, controller, connection.handle).None?
    ensures !Lists(connections, connection.handle)
    ensures var own := Find(links, controller, connection.handle); own.Some? ==> own.value < i
  {
    hide Lists, Counted, Unused, Sound;
    if Find(links, controller, connection.handle).Some? {
      assert Find(links, controller, connection.handle).value <= i;
    }
  }

  lemma NewOrBelow(links: seq<Slot>, controller: nat, connections: seq<Connection>, handle: nat, i: nat)
    requires !Lists(connections, handle) && var own := Find(links, controller, handle); own.Some? ==> own.value < i
    ensures IsNew(links, controller, connections, handle) <==> !IsBelow(links, controller, connections, handle, i)
  {
    hide Lists;
  }

  /** The bind takes slot i, which was waiting: its link is gone. */
  ghost predicate TakesIt(links: seq<Slot>, table: seq<Slot>, controller: nat, connection: Connection, i: nat) {
    && i < |links| && Lookup(Apply(table, Bind(controller, connection)), controller, links[i].handle).None?
  }

  lemma {:induction false} BindsInactive(links: seq<Slot>, table: seq<Slot>, controller: nat, connections: seq<Connection>,
                                         connection: Connection, i: nat)
    requires Waits(links, table, controller, connections, i) && Elsewhere(links, controller, connection, i)
    requires Find(table, controller, connection.handle).None? && Unused(table) == 0
    ensures var after, more := Apply(table, Bind(controller, connection)), connections + [connection];
      if Demand(links, controller, more, i) <= Supply(links, controller, i) then Waits(links, after, controller, more, i)
      else TakesIt(links, table, controller, connection, i)
  {
    hide *;
    var before := Deactivated(links, controller);
    WaitsMeans(links, table, controller, connections, i);
    InactiveSlot(links, table, controller, connections, connection, i);
    DemandMore(links, controller, connections, connection, i);
    OverIs(Unused(links), News(links, controller, connections));
    var s := FirstInactive(table).value;
    if s == i {
      TakenAway(links, table, controller, connection, i);
    } else {
      BindWrites(table, controller, connection);
      BindIsSound(table, controller, connection);
      var w := Written(table, controller, connection);
      HoldsIs(w, controller, connection.handle);
      PlacedNext(before, table, controller, connections, connection, s, w);
      UndisturbedNext(before, table, i, s, w);
      IdleOneIs(table[s]);
      SomeIdle(table, i, s);
      CountedNext(links, table, controller, connections, connection, i, s, w);
      WaitsIs(links, table[s := w], controller, connections + [connection], i);
    }
  }

  lemma SomeIdle(table: seq<Slot>, i: nat, s: nat)
    requires s < i <= |table| && table[s].used && !table[s].active
    ensures Idle(table[..i]) > 0
  {
    IdleExists(table[..i]);
    assert table[..i][s] == table[s];
    hide Idle;
  }

  lemma {:induction false} TakenAway(links: seq<Slot>, table: seq<Slot>, controller: nat, connection: Connection, i: nat)
    requires Sound(table) && i < |table| == |links| && table[i] == Deactivated(links, controller)[i]
    requires Elsewhere(links, controller, connection, i)
    requires Find(table, controller, connection.handle).None? && FirstUnused(table).None? && FirstInactive(table) == Some(i)
    ensures TakesIt(links, table, controller, connection, i)
  {
    BindEvicts(table, controller, connection, i);
    hide Sound, Apply, FirstUnused, FirstInactive;
  }

  /** While the demand is met slot i waits; the connection that exceeds it takes the slot. */
  lemma {:induction false} OneMore(links: seq<Slot>, table: seq<Slot>, controller: nat, connections: seq<Connection>,
                                   connection: Connection, i: nat)
    requires Waits(links, table, controller, connections, i) && Elsewhere(links, controller, connection, i)
    ensures var after, more := Apply(table, Bind(controller, connection)), connections + [connection];
      if Demand(links, controller, more, i) <= Supply(links, controller, i) then Waits(links, after, controller, more, i)
      else TakesIt(links, table, controller, connection, i)
  {
    hide *;
    if Find(table, controller, connection.handle).Some? {
      BindsOwn(links, table, controller, connections, connection, i);
      DemandIsMet(links, Apply(table, Bind(controller, connection)), controller, connections + [connection], i);
    } else if Unused(table) > 0 {
      BindsUnused(links, table, controller, connections, connection, i);
      DemandIsMet(links, Apply(table, Bind(controller, connection)), controller, connections + [connection], i);
    } else {
      BindsInactive(links, table, controller, connections, connection, i);
    }
  }

  lemma DemandIsMet(links: seq<Slot>, table: seq<Slot>, controller: nat, connections: seq<Connection>, i: nat)
    requires Waits(links, table, controller, connections, i)
    ensures Demand(links, controller, connections, i) <= Supply(links, controller, i)
  {
    WaitsMeans(links, table, controller, connections, i);
    hide Waits, Demand, Supply, Idle;
  }

  // ----- The link from then on -----

  /** No bytes are left of the link. */
  ghost predicate Emptied(table: seq<Slot>, controller: nat, handle: nat) {
    var slot := Lookup(table, controller, handle);
    slot.Some? ==> slot.value.rx == slot.value.tx == 0
  }

  /** The link is bound to its device, with the bytes it had. */
  ghost predicate Lives(table: seq<Slot>, controller: nat, slot: Slot, address: Address) {
    Lookup(table, controller, slot.handle) ==
      Some(Slot(controller, slot.handle, AddressString(address), slot.rx, slot.tx, true, true))
  }

  lemma {:induction false} EmptiedStays(table: seq<Slot>, controller: nat, connection: Connection, handle: nat)
    requires Sound(table) && Emptied(table, controller, handle)
    ensures Emptied(Apply(table, Bind(controller, connection)), controller, handle)
  {
    hide *;
    AfterBind(table, controller, connection, controller, handle);
    EmptiedMeans(table, controller, handle);
    EmptiedMeans(Apply(table, Bind(controller, connection)), controller, handle);
  }

  lemma EmptiedMeans(table: seq<Slot>, controller: nat, handle: nat)
    ensures Emptied(table, controller, handle) <==>
      var slot := Lookup(table, controller, handle); slot.Some? ==> slot.value.rx == slot.value.tx == 0
  {
    hide Lookup;
  }

  /** What a bind leaves of a link: its own slot is bound, another's is kept, or taken when inactive. */
  lemma {:induction false} AfterBind(table: seq<Slot>, controller: nat, connection: Connection, c: nat, h: nat)
    requires Sound(table)
    ensures var was, now := Lookup(table, c, h), Lookup(Apply(table, Bind(controller, connection)), c, h);
      if c == controller && h == connection.handle then
        && (now.Some? && was.None? ==> now.value.rx == now.value.tx == 0)
        && (was.Some? ==> now == Some(Bound(was.value, AddressString(connection.address))))
        && (was.Some? && was.value.rx == was.value.tx == 0 ==> now.value.rx == now.value.tx == 0)
      else now == was || (now.None? && (was.Some? ==> !was.value.active))
  {
    if MustTake(table, controller, connection) {
      var i := FirstInactive(table).value;
      hide AddressString, EqualIgnoringCase;
      TakenSlot(table, controller, connection, i, c, h);
    } else {
      hide Sound, Apply, SlotFor, AddressString, EqualIgnoringCase;
      BindWithoutTaking(table, controller, connection, c, h);
      OwnSlotExists(table, controller, connection.handle);
    }
  }

  lemma {:induction false} TakenSlot(table: seq<Slot>, controller: nat, connection: Connection, i: nat, c: nat, h: nat)
    requires Sound(table) && MustTake(table, controller, connection) && FirstInactive(table) == Some(i)
    ensures var was, now := Lookup(table, c, h), Lookup(Apply(table, Bind(controller, connection)), c, h);
      if c == controller && h == connection.handle then was.None? && now.Some? && now.value.rx == now.value.tx == 0
      else now == was || (now.None? && (was.Some? ==> !was.value.active))
  {
    var after := Apply(table, Bind(controller, connection));
    BindIsSound(table, controller, connection);
    BoundNew(table, controller, connection, i);
    hide Sound, Apply, SlotFor, Written, AddressString, EqualIgnoringCase, FirstInactive, FirstUnused;
    if c == controller && h == connection.handle {
      HoldsIsFound(after, i, c, h);
    } else if Holds(table[i], c, h) {
      HoldsIsFound(table, i, c, h);
      if Find(after, c, h).Some? {
        var j := Find(after, c, h).value;
        assert after[j] == table[j];
        HoldsIsFound(table, j, c, h);
      }
    } else if Find(table, c, h).Some? {
      HoldsIsFound(after, Find(table, c, h).value, c, h);
    }
  }

  lemma BoundNew(table: seq<Slot>, controller: nat, connection: Connection, i: nat)
    requires MustTake(table, controller, connection) && FirstInactive(table) == Some(i)
    ensures i < |table| && !table[i].active && SlotFor(table, controller, connection.handle) == Some(i)
    ensures var w := Written(table, controller, connection);
      Apply(table, Bind(controller, connection)) == table[i := w] && Holds(w, controller, connection.handle) &&
          w.rx == w.tx == 0
  {
    hide *;
    TakesFirstInactive(table, controller, connection, i);
    BindWrites(table, controller, connection);
    WrittenAnew(table, controller, connection, i);
  }

  lemma TakesFirstInactive(table: seq<Slot>, controller: nat, connection: Connection, i: nat)
    requires MustTake(table, controller, connection) && FirstInactive(table) == Some(i)
    ensures i < |table| && !table[i].active && SlotFor(table, controller, connection.handle) == Some(i)
    ensures Acquire(table, controller, connection.handle) == table[i := NewSlot(controller, connection.handle)]
  {
  }

  lemma WrittenAnew(table: seq<Slot>, controller: nat, connection: Connection, i: nat)
    requires i < |table| && SlotFor(table, controller, connection.handle) == Some(i)
    requires Acquire(table, controller, connection.handle) == table[i := NewSlot(controller, connection.handle)]
    ensures Written(table, controller, connection).rx == Written(table, controller, connection).tx == 0
  {
    hide AddressString, Acquire, SlotFor, Rebinds;
  }

  lemma OwnSlotExists(table: seq<Slot>, controller: nat, handle: nat)
    ensures Lookup(table, controller, handle).Some? ==> SlotFor(table, controller, handle).Some?
  {
  }

  // ----- The whole refresh -----

  /** The bytes the link had before the refresh. */
  ghost predicate KeepsBytes(table: seq<Slot>, controller: nat, slot: Slot) {
    var now := Lookup(table, controller, slot.handle);
    now.Some? && now.value.rx == slot.rx && now.value.tx == slot.tx
  }

  /** Slot i is that of a link of the controller, which has bytes to lose. */
  ghost predicate HasBytes(links: seq<Slot>, controller: nat, i: nat) {
    Sound(links) && i < |links| && Holds(links[i], controller, links[i].handle) && (links[i].rx > 0 || links[i].tx > 0)
  }

  /** The first time the list names the handle, and with which device. */
  ghost predicate FirstNamed(connections: seq<Connection>, handle: nat, p: nat) {
    p < |connections| && connections[p].handle == handle && !Lists(connections[..p], handle)
  }

  /** The list names the handle with the device it is bound to, if any, and with no other. */
  ghost predicate OwnDevice(slot: Slot, connections: seq<Connection>, p: nat)
    requires p < |connections|
  {
    && !Rebinds(slot, AddressString(connections[p].address))
    && forall k :: p < k < |connections| && connections[k].handle == slot.handle ==>
        connections[k].address == connections[p].address
  }

  lemma {:induction false} WaitsAtFirst(links: seq<Slot>, controller: nat, i: nat)
    requires Sound(links) && i < |links|
    ensures Waits(links, Refreshed(links, controller, []), controller, [], i)
    ensures Demand(links, controller, [], i) == 0
  {
    hide *;
    var table := Deactivated(links, controller);
    DeactivatedFirst(links, controller);
    PlacedAtFirst(table, controller);
    UndisturbedAtFirst(table, i);
    UnusedAfterInactive(links, controller);
    CountedAtFirst(links, controller, i);
    WaitsIs(links, table, controller, [], i);
  }

  lemma DeactivatedFirst(links: seq<Slot>, controller: nat)
    requires Sound(links)
    ensures Refreshed(links, controller, []) == Deactivated(links, controller)
    ensures Sound(Deactivated(links, controller)) && |Deactivated(links, controller)| == |links|
  {
    InactiveIsSound(links, controller);
    hide Sound;
  }

  lemma PlacedAtFirst(table: seq<Slot>, controller: nat)
    requires Sound(table)
    ensures Placed(table, table, controller, [])
  {
    hide Sound, Find;
  }

  lemma UndisturbedAtFirst(table: seq<Slot>, i: nat)
    requires i < |table|
    ensures Undisturbed(table, table, i)
  {
    hide Unused;
  }

  lemma CountedAtFirst(links: seq<Slot>, controller: nat, i: nat)
    requires i <= |links| && |Deactivated(links, controller)| == |links|
    requires Unused(Deactivated(links, controller)) == Unused(links)
    ensures Counted(links, Deactivated(links, controller), controller, [], i) && Demand(links, controller, [], i) == 0
  {
    hide Unused, Idle, Deactivated;
    assert Below(links, controller, [], i) == 0 && News(links, controller, []) == 0;
  }

  /** Up to the first time its handle is named, the link waits in its slot or is gone, as the demand
      so far decides. */
  lemma {:induction false} UpToNamed(links: seq<Slot>, controller: nat, connections: seq<Connection>, i: nat)
    requires HasBytes(links, controller, i) && !Lists(connections, links[i].handle)
    ensures var table := Refreshed(links, controller, connections);
      if Demand(links, controller, connections, i) <= Supply(links, controller, i)
      then Waits(links, table, controller, connections, i)
      else Emptied(table, controller, links[i].handle)
  {
    if connections == [] {
      WaitsAtFirst(links, controller, i);
    } else {
      var n := |connections| - 1;
      var front, last := connections[..n], connections[n];
      assert connections == front + [last];
      ListsMore(front, last, links[i].handle);
      assert Refreshed(links, controller, connections) == Apply(Refreshed(links, controller, front), Bind(controller, last));
      hide *;
      HasBytesMeans(links, controller, i);
      UpToNamed(links, controller, front, i);
      DemandMore(links, controller, front, last, i);
      RefreshedIsSound(links, controller, front);
      var table := Refreshed(links, controller, front);
      if Demand(links, controller, front, i) <= Supply(links, controller, i) {
        ElsewhereIs(links, controller, last, i);
        OneMore(links, table, controller, front, last, i);
        TakenIsEmptied(links, table, controller, last, i);
      } else {
        EmptiedStays(table, controller, last, links[i].handle);
      }
    }
  }

  lemma HasBytesMeans(links: seq<Slot>, controller: nat, i: nat)
    requires HasBytes(links, controller, i)
    ensures Sound(links) && i < |links| && links[i].used && links[i].controller == controller
    ensures links[i].rx > 0 || links[i].tx > 0
  {
    hide Sound;
  }

  lemma ElsewhereIs(links: seq<Slot>, controller: nat, connection: Connection, i: nat)
    requires HasBytes(links, controller, i) && connection.handle != links[i].handle
    ensures Elsewhere(links, controller, connection, i)
  {
    hide Sound;
  }

  lemma TakenIsEmptied(links: seq<Slot>, table: seq<Slot>, controller: nat, connection: Connection, i: nat)
    requires i < |links|
    ensures TakesIt(links, table, controller, connection, i) ==>
      Emptied(Apply(table, Bind(controller, connection)), controller, links[i].handle)
  {
    hide Apply, Lookup;
  }

  /** The link's own bind: with another device its bytes are gone, otherwise it lives on. */
  lemma {:induction false} OwnBind(links: seq<Slot>, table: seq<Slot>, controller: nat, connections: seq<Connection>,
                                   connection: Connection, i: nat)
    requires HasBytes(links, controller, i) && Waits(links, table, controller, connections, i)
    requires connection.handle == links[i].handle
    ensures var after := Apply(table, Bind(controller, connection));
      if Rebinds(links[i], AddressString(connection.address)) then Emptied(after, controller, links[i].handle)
      else Lives(after, controller, links[i], connection.address)
  {
    hide *;
    HasBytesMeans(links, controller, i);
    WaitsMeans(links, table, controller, connections, i);
    StillThere(links, table, controller, i);
    AfterBind(table, controller, connection, controller, links[i].handle);
    BoundIs(links[i].(active := false), AddressString(connection.address));
    var after := Apply(table, Bind(controller, connection));
    EmptiedMeans(after, controller, links[i].handle);
    LivesMeans(after, controller, links[i], connection.address);
    RebindsIgnoresActive(links[i], AddressString(connection.address));
  }

  lemma StillThere(links: seq<Slot>, table: seq<Slot>, controller: nat, i: nat)
    requires Sound(table) && i < |table| == |links| && table[i] == Deactivated(links, controller)[i]
    requires links[i].used && links[i].controller == controller
    ensures Lookup(table, controller, links[i].handle) == Some(links[i].(active := false))
  {
    HoldsIsFound(table, i, controller, links[i].handle);
    hide Sound, Find;
  }

  lemma BoundIs(slot: Slot, remote: string)
    ensures Bound(slot, remote) ==
      (if Rebinds(slot, remote) then slot.(rx := 0, tx := 0) else slot).(address := remote, active := true)
  {
    hide Rebinds;
  }

  lemma RebindsIgnoresActive(slot: Slot, remote: string)
    ensures Rebinds(slot.(active := false), remote) == Rebinds(slot, remote)
  {
  }

  lemma LivesMeans(table: seq<Slot>, controller: nat, slot: Slot, address: Address)
    ensures Lives(table, controller, slot, address) <==>
      Lookup(table, controller, slot.handle) ==
      Some(Slot(controller, slot.handle, AddressString(address), slot.rx, slot.tx, true, true))
  {
    hide Lookup, AddressString;
  }

  /** A link that lives on keeps doing so until its handle is named with another device. */
  lemma {:induction false} LivesOn(table: seq<Slot>, controller: nat, connection: Connection, slot: Slot, address: Address)
    requires Sound(table) && Lives(table, controller, slot, address)
    ensures var after := Apply(table, Bind(controller, connection));
      if connection.handle == slot.handle && connection.address != address then Emptied(after, controller, slot.handle)
      else Lives(after, controller, slot, address)
  {
    hide *;
    var after := Apply(table, Bind(controller, connection));
    var was := Slot(controller, slot.handle, AddressString(address), slot.rx, slot.tx, true, true);
    AfterBind(table, controller, connection, controller, slot.handle);
    LivesMeans(table, controller, slot, address);
    LivesMeans(after, controller, slot, address);
    EmptiedMeans(after, controller, slot.handle);
    BoundIs(was, AddressString(connection.address));
    RebindsDevice(was, address, connection.address);
  }

  lemma RebindsDevice(slot: Slot, a: Address, b: Address)
    requires slot.address == AddressString(a)
    ensures Rebinds(slot, AddressString(b)) <==> a != b
  {
    SameStringSameDevice(a, b);
    hide EqualIgnoringCase;
  }

  /** From the first time it is named on. */
  lemma {:induction false} FromNamed(links: seq<Slot>, controller: nat, connections: seq<Connection>, i: nat, p: nat)
    requires HasBytes(links, controller, i) && FirstNamed(connections, links[i].handle, p)
    ensures var table := Refreshed(links, controller, connections);
      if Demand(links, controller, connections[..p], i) <= Supply(links, controller, i) && OwnDevice(links[i], connections, p)
      then Lives(table, controller, links[i], connections[p].address)
      else Emptied(table, controller, links[i].handle)
    decreases |connections|
  {
    var n := |connections| - 1;
    var front, last := connections[..n], connections[n];
    assert Refreshed(links, controller, connections) == Apply(Refreshed(links, controller, front), Bind(controller, last));
    assert p < n ==> front[..p] == connections[..p] && front[p] == connections[p];
    hide *;
    HasBytesMeans(links, controller, i);
    FirstNamedMeans(connections, links[i].handle, p);
    RefreshedIsSound(links, controller, front);
    var table := Refreshed(links, controller, front);
    OwnDeviceMore(links[i], connections, p);
    if p == n {
      UpToNamed(links, controller, front, i);
      if Demand(links, controller, front, i) <= Supply(links, controller, i) {
        OwnBind(links, table, controller, front, last, i);
      } else {
        EmptiedStays(table, controller, last, links[i].handle);
      }
    } else {
      FirstNamedIs(front, links[i].handle, p);
      FromNamed(links, controller, front, i, p);
      if Demand(links, controller, front[..p], i) <= Supply(links, controller, i) && OwnDevice(links[i], front, p) {
        LivesOn(table, controller, last, links[i], front[p].address);
      } else {
        EmptiedStays(table, controller, last, links[i].handle);
      }
    }
  }

  lemma FirstNamedMeans(connections: seq<Connection>, handle: nat, p: nat)
    requires FirstNamed(connections, handle, p)
    ensures p < |connections| && connections[p].handle == handle && !Lists(connections[..p], handle)
  {
    hide Lists;
  }

  lemma FirstNamedIs(connections: seq<Connection>, handle: nat, p: nat)
    requires p < |connections| && connections[p].handle == handle && !Lists(connections[..p], handle)
    ensures FirstNamed(connections, handle, p)
  {
    hide Lists;
  }

  lemma OwnDeviceMore(slot: Slot, connections: seq<Connection>, p: nat)
    requires p < |connections|
    ensures var n := |connections| - 1;
      if p == n then OwnDevice(slot, connections, p) <==> !Rebinds(slot, AddressString(connections[p].address))
      else OwnDevice(slot, connections, p) <==>
        OwnDevice(slot, connections[..n], p) && (connections[n].handle == slot.handle ==>
            connections[n].address == connections[p].address)
  {
    hide AddressString, Rebinds;
    var n := |connections| - 1;
    if p < n && OwnDevice(slot, connections, p) {
      assert forall k :: p < k < n ==> connections[..n][k] == connections[k];
    }
    if p < n && OwnDevice(slot, connections[..n], p) {
      assert forall k :: p < k < n ==> connections[..n][k] == connections[k];
    }
  }

  /** The exact condition for a listed link: it keeps its bytes if and only if, before the list names
      it, the list has use for no more slots in front of its own than there are, and the list names
      it with its own device only. */
  lemma {:induction false} ListedLinkKeepsBytes(links: seq<Slot>, controller: nat,
      connections: seq<Connection>, i: nat, p: nat)
    requires HasBytes(links, controller, i) && FirstNamed(connections, links[i].handle, p)
    ensures KeepsBytes(Refreshed(links, controller, connections), controller, links[i]) <==>
      Demand(links, controller, connections[..p], i) <= Supply(links, controller, i) && OwnDevice(links[i], connections, p)
  {
    hide *;
    HasBytesMeans(links, controller, i);
    FirstNamedMeans(connections, links[i].handle, p);
    FromNamed(links, controller, connections, i, p);
    var table := Refreshed(links, controller, connections);
    LivesMeans(table, controller, links[i], connections[p].address);
    EmptiedMeans(table, controller, links[i].handle);
    KeepsMeans(table, controller, links[i]);
  }

  /** For a link of the controller that the list does not name, the whole list decides. */
  lemma {:induction false} UnlistedLinkKeepsBytes(links: seq<Slot>, controller: nat, connections: seq<Connection>, i: nat)
    requires HasBytes(links, controller, i) && !Lists(connections, links[i].handle)
    ensures KeepsBytes(Refreshed(links, controller, connections), controller, links[i]) <==>
      Demand(links, controller, connections, i) <= Supply(links, controller, i)
  {
    hide *;
    HasBytesMeans(links, controller, i);
    UpToNamed(links, controller, connections, i);
    var table := Refreshed(links, controller, connections);
    EmptiedMeans(table, controller, links[i].handle);
    KeepsMeans(table, controller, links[i]);
    if Demand(links, controller, connections, i) <= Supply(links, controller, i) {
      WaitsMeans(links, table, controller, connections, i);
      StillThere(links, table, controller, i);
    }
  }

  lemma KeepsMeans(table: seq<Slot>, controller: nat, slot: Slot)
    ensures KeepsBytes(table, controller, slot) <==>
      var now := Lookup(table, controller, slot.handle); now.Some? && now.value.rx == slot.rx && now.value.tx == slot.tx
  {
    hide Lookup;
  }
}
