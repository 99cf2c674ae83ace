/** What a refresh of a controller's connections displaces in the link table
    (lsm_bluetooth_traffic_refresh_connections in src/bluetooth_traffic.c). */
module HciRefresh {
  import opened Basics
  import opened HciFrame
  import opened HciLedger

  // ----- Counting unused slots -----

  function Unused(links: seq<Slot>): nat {
    if links == [] then 0 else Unused(links[..|links| - 1]) + if links[|links| - 1].used then 0 else 1
  }

  lemma {:induction false} UnusedAfterUpdate(links: seq<Slot>, i: nat, slot: Slot)
    requires i < |links| && slot.used
    ensures Unused(links[i := slot]) == Unused(links) - if links[i].used then 0 else 1
    ensures !links[i].used ==> Unused(links) > 0
  {
    var n := |links| - 1;
    if i == n {
      assert links[i := slot][..n] == links[..n];
    } else {
      assert links[i := slot][..n] == links[..n][i := slot];
      UnusedAfterUpdate(links[..n], i, slot);
    }
  }

  lemma {:induction false} RoomIsFound(links: seq<Slot>)
    ensures Unused(links) > 0 ==> FirstUnused(links).Some?
  {
    if links != [] {
      RoomIsFound(links[..|links| - 1]);
    }
  }

  lemma {:induction false} NoRoomIsFull(links: seq<Slot>)
    requires Unused(links) == 0
    ensures forall i :: 0 <= i < |links| ==> links[i].used
  {
    if links != [] {
      var n := |links| - 1;
      NoRoomIsFull(links[..n]);
      assert forall i :: 0 <= i < n ==> links[i] == links[..n][i];
    }
  }

  lemma {:induction false} UnusedAfterInactive(links: seq<Slot>, controller: nat)
    ensures Unused(Deactivated(links, controller)) == Unused(links)
  {
    if links != [] {
      UnusedAfterInactive(links[..|links| - 1], controller);
    }
  }

  // ----- One bind -----

  /** Binding the connection takes some link's slot away. */
  ghost predicate Takes(links: seq<Slot>, controller: nat, connection: Connection) {
    exists c, h :: Lookup(links, c, h).Some? && Lookup(Apply(links, Bind(controller, connection)), c, h).None?
  }

  /** The connection has no slot, no slot is unused, and one is inactive. */
  ghost predicate MustTake(links: seq<Slot>, controller: nat, connection: Connection) {
    Lookup(links, controller, connection.handle).None? && FirstUnused(links).None? && FirstInactive(links).Some?
  }

  function OwnOrNew(links: seq<Slot>, controller: nat, handle: nat): Slot {
    var own := Lookup(links, controller, handle);
    if own.Some? then own.value else NewSlot(controller, handle)
  }

  /** A bind that takes no slot changes its own link only; without any slot for it, nothing. */
  lemma {:induction false} BindWithoutTaking(links: seq<Slot>, controller: nat, connection: Connection, c: nat, h: nat)
    requires Sound(links) && !MustTake(links, controller, connection)
    ensures Lookup(Apply(links, Bind(controller, connection)), c, h) ==
      if c == controller && h == connection.handle && SlotFor(links, controller, connection.handle).Some?
      then Some(Bound(OwnOrNew(links, c, h), AddressString(connection.address)))
      else Lookup(links, c, h)
  {
    hide AddressString, EqualIgnoringCase;
    var i := SlotFor(links, controller, connection.handle);
    if i.Some? {
      var table := Acquire(links, controller, connection.handle);
      var bound := Bound(table[i.value], AddressString(connection.address));
      LookupAfterAcquire(links, controller, connection.handle, c, h);
      AcquireIsSound(links, controller, connection.handle);
      LookupAfterUpdate(table, i.value, bound, c, h);
      assert Lookup(Apply(links, Bind(controller, connection)), c, h) ==
        if Holds(bound, c, h) then Some(bound) else Lookup(table, c, h);
      if (c != controller || h != connection.handle) && Lookup(links, c, h).Some? {
        HoldsIsFound(table, Find(links, c, h).value, c, h);
      }
    }
  }

  /** In a full table a link without a slot takes that of the first inactive one, whose link is gone. */
  lemma {:induction false} BindEvicts(links: seq<Slot>, controller: nat, connection: Connection, i: nat)
    requires Sound(links) && Lookup(links, controller, connection.handle).None?
    requires FirstUnused(links).None? && FirstInactive(links) == Some(i)
    ensures Lookup(links, links[i].controller, links[i].handle) == Some(links[i])
    ensures Lookup(Apply(links, Bind(controller, connection)), links[i].controller, links[i].handle).None?
  {
    var c, h := links[i].controller, links[i].handle;
    var table := Acquire(links, controller, connection.handle);
    var bound := Bound(table[i], AddressString(connection.address));
    assert Apply(links, Bind(controller, connection)) == links[i := bound];
    HoldsIsFound(links, i, c, h);
    assert !Holds(bound, c, h);
    var after := links[i := bound];
    forall j | 0 <= j < |after| ensures !Holds(after[j], c, h) {
      assert j != i ==> !Holds(links[j], c, h);
    }
  }

  /** A bind takes a slot exactly when it must. */
  lemma {:induction false} TakesExactly(links: seq<Slot>, controller: nat, connection: Connection)
    requires Sound(links)
    ensures Takes(links, controller, connection) <==> MustTake(links, controller, connection)
  {
    hide Apply, Lookup, Sound, AddressString, SlotFor;
    if MustTake(links, controller, connection) {
      var i := FirstInactive(links).value;
      BindEvicts(links, controller, connection, i);
    } else {
      forall c, h | Lookup(links, c, h).Some? ensures Lookup(Apply(links, Bind(controller, connection)), c, h).Some? {
        BindWithoutTaking(links, controller, connection, c, h);
      }
    }
  }

  // ----- New handles of a list -----

  ghost predicate Lists(connections: seq<Connection>, handle: nat) {
    exists j :: 0 <= j < |connections| && connections[j].handle == handle
  }

  /** The handle has no slot and was not listed before. */
  ghost predicate IsNew(links: seq<Slot>, controller: nat, earlier: seq<Connection>, handle: nat) {
    Lookup(links, controller, handle).None? && !Lists(earlier, handle)
  }

  /** How many different handles of the list have no slot. */
  ghost function News(links: seq<Slot>, controller: nat, connections: seq<Connection>): nat {
    if connections == [] then 0 else
    var n := |connections| - 1;
    News(links, controller, connections[..n]) + if IsNew(links, controller, connections[..n], connections[n].handle) then 1 else 0
  }

  lemma {:induction false} ListsOneMore(connections: seq<Connection>, handle: nat)
    requires connections != []
    ensures var n := |connections| - 1;
      Lists(connections, handle) <==> Lists(connections[..n], handle) || connections[n].handle == handle
  {
    var n := |connections| - 1;
    var front := connections[..n];
    if j :| 0 <= j < |front| && front[j].handle == handle {
      assert connections[j].handle == handle;
    }
    if j :| 0 <= j < |connections| && connections[j].handle == handle {
      assert j < n ==> front[j].handle == handle;
    }
  }

  /** While there is room for the new handles: who has a slot, and who is active. */
  ghost predicate Stage(links: seq<Slot>, controller: nat, connections: seq<Connection>, c: nat, h: nat) {
    var before, now := Lookup(links, c, h), Lookup(Refreshed(links, controller, connections), c, h);
    && (now.Some? <==> before.Some? || (c == controller && Lists(connections, h)))
    && (now.Some? ==> (now.value.active <==> if c == controller then Lists(connections, h) else before.Some? && before.value.active))
  }

  lemma {:induction false} InactiveStage(links: seq<Slot>, controller: nat, c: nat, h: nat)
    requires Sound(links)
    ensures Stage(links, controller, [], c, h)
  {
    var table := Deactivated(links, controller);
    LookupAfterInactive(links, controller, c, h);
    if Find(links, c, h).Some? {
      InactiveIsSound(links, controller);
      HoldsIsFound(table, Find(links, c, h).value, c, h);
    }
    assert !Lists([], h);
  }

  lemma {:induction false} BindUses(links: seq<Slot>, controller: nat, connection: Connection)
    requires Sound(links) && (Lookup(links, controller, connection.handle).Some? || Unused(links) > 0)
    ensures SlotFor(links, controller, connection.handle).Some? && !MustTake(links, controller, connection)
    ensures Unused(Apply(links, Bind(controller, connection))) ==
      Unused(links) - if Lookup(links, controller, connection.handle).Some? then 0 else 1
  {
    RoomIsFound(links);
    var i := SlotFor(links, controller, connection.handle).value;
    var table := Acquire(links, controller, connection.handle);
    var bound := Bound(table[i], AddressString(connection.address));
    assert Apply(links, Bind(controller, connection)) == links[i := bound];
    UnusedAfterUpdate(links, i, bound);
  }

  lemma {:induction false} RoomForOne(links: seq<Slot>, controller: nat, connections: seq<Connection>)
    requires Sound(links) && connections != [] && News(links, controller, connections) <= Unused(links)
    requires var n := |connections| - 1;
      && Unused(Refreshed(links, controller, connections[..n])) == Unused(links) - News(links, controller, connections[..n])
      && Stage(links, controller, connections[..n], controller, connections[n].handle)
    ensures var n := |connections| - 1;
      var table := Refreshed(links, controller, connections[..n]);
      && !MustTake(table, controller, connections[n]) && SlotFor(table, controller, connections[n].handle).Some?
    ensures Unused(Refreshed(links, controller, connections)) == Unused(links) - News(links, controller, connections)
  {
    var n := |connections| - 1;
    RefreshedIsSound(links, controller, connections[..n]);
    hide Sound, Apply, Unused, Lookup, SlotFor, MustTake;
    BindUses(Refreshed(links, controller, connections[..n]), controller, connections[n]);
  }

  lemma {:induction false} NextStage(links: seq<Slot>, controller: nat, connections: seq<Connection>, c: nat, h: nat)
    requires connections != [] && Stage(links, controller, connections[..|connections| - 1], c, h)
    requires var n := |connections| - 1;
      var table := Refreshed(links, controller, connections[..n]);
      && Sound(table) && !MustTake(table, controller, connections[n])
      && SlotFor(table, controller, connections[n].handle).Some?
    ensures Stage(links, controller, connections, c, h)
  {
    var n := |connections| - 1;
    hide Sound, Apply, Lookup, SlotFor, MustTake, AddressString;
    BindWithoutTaking(Refreshed(links, controller, connections[..n]), controller, connections[n], c, h);
    ListsOneMore(connections, h);
    hide Lists;
  }

  /** A refresh with room for its new handles takes no slot, and uses one unused slot for each. */
  lemma {:induction false} RoomForAll(links: seq<Slot>, controller: nat, connections: seq<Connection>)
    requires Sound(links) && News(links, controller, connections) <= Unused(links)
    ensures Unused(Refreshed(links, controller, connections)) == Unused(links) - News(links, controller, connections)
    ensures forall c, h :: Stage(links, controller, connections, c, h)
  {
    if connections == [] {
      UnusedAfterInactive(links, controller);
      forall c, h ensures Stage(links, controller, connections, c, h) {
        InactiveStage(links, controller, c, h);
      }
    } else {
      var n := |connections| - 1;
      RoomForAll(links, controller, connections[..n]);
      RefreshedIsSound(links, controller, connections[..n]);
      assert Stage(links, controller, connections[..n], controller, connections[n].handle);
      RoomForOne(links, controller, connections);
      hide Stage, Sound, MustTake, SlotFor, Refreshed;
      forall c, h ensures Stage(links, controller, connections, c, h) {
        NextStage(links, controller, connections, c, h);
      }
    }
  }

  // ----- The whole refresh -----

  /** Some bind of the refresh takes a link's slot away. */
  ghost predicate TakesAt(links: seq<Slot>, controller: nat, connections: seq<Connection>, k: int) {
    0 <= k < |connections| && Takes(Refreshed(links, controller, connections[..k]), controller, connections[k])
  }

  /** No link loses its slot. */
  ghost predicate NoneTaken(links: seq<Slot>, controller: nat, connections: seq<Connection>) {
    forall k :: !TakesAt(links, controller, connections, k)
  }

  /** Connection k is the first new one for which no unused slot is left. */
  ghost predicate FirstTooMany(links: seq<Slot>, controller: nat, connections: seq<Connection>, k: int) {
    && 0 <= k < |connections| && IsNew(links, controller, connections[..k], connections[k].handle)
    && News(links, controller, connections[..k]) == Unused(links)
  }

  /** A link is inactive once the given connections were bound: one of the controller that they do
      not name, or one of another controller that was inactive. */
  ghost predicate LeavesInactive(links: seq<Slot>, controller: nat, connections: seq<Connection>) {
    exists i :: 0 <= i < |links| && links[i].used &&
      if links[i].controller == controller then !Lists(connections, links[i].handle) else !links[i].active
  }

  ghost predicate AllActive(links: seq<Slot>) {
    forall i :: 0 <= i < |links| ==> links[i].used && links[i].active
  }

  /** A full table of active links stays one, and nothing is taken from it. */
  lemma {:induction false} AllActiveStays(links: seq<Slot>, controller: nat, connection: Connection)
    requires Sound(links) && AllActive(links)
    ensures !MustTake(links, controller, connection) && AllActive(Apply(links, Bind(controller, connection)))
  {
  }

  lemma {:induction false} AllActiveToTheEnd(links: seq<Slot>, controller: nat, connections: seq<Connection>, k: nat, j: nat)
    requires Sound(links) && k <= j < |connections| && AllActive(Refreshed(links, controller, connections[..k]))
    ensures AllActive(Refreshed(links, controller, connections[..j])) && !TakesAt(links, controller, connections, j)
  {
    hide AllActive, Sound, MustTake, Apply;
    if k < j {
      AllActiveToTheEnd(links, controller, connections, k, j - 1);
      RefreshedIsSound(links, controller, connections[..j - 1]);
      AllActiveStays(Refreshed(links, controller, connections[..j - 1]), controller, connections[j - 1]);
      assert connections[..j][..j - 1] == connections[..j - 1];
    }
    RefreshedIsSound(links, controller, connections[..j]);
    AllActiveStays(Refreshed(links, controller, connections[..j]), controller, connections[j]);
    TakesExactly(Refreshed(links, controller, connections[..j]), controller, connections[j]);
  }

  /** At the first new connection without an unused slot a slot is taken exactly when some link is
      inactive by then; otherwise the table is full of active links. */
  lemma {:induction false} FirstTooManyTakes(links: seq<Slot>, controller: nat, connections: seq<Connection>, k: nat)
    requires Sound(links) && FirstTooMany(links, controller, connections, k)
    ensures LeavesInactive(links, controller, connections[..k]) ==> TakesAt(links, controller, connections, k)
    ensures !LeavesInactive(links, controller, connections[..k]) ==> AllActive(Refreshed(links, controller, connections[..k]))
  {
    var front, connection := connections[..k], connections[k];
    var table := Refreshed(links, controller, front);
    RoomForAll(links, controller, front);
    RefreshedIsSound(links, controller, front);
    NoRoomIsFull(table);
    TakesExactly(table, controller, connection);
    assert Stage(links, controller, front, controller, connection.handle);
    if LeavesInactive(links, controller, front) {
      InactiveSlot(links, controller, front);
    } else {
      forall i | 0 <= i < |table| ensures table[i].active {
        ActiveSlot(links, controller, front, i);
      }
    }
  }

  lemma {:induction false} InactiveSlot(links: seq<Slot>, controller: nat, connections: seq<Connection>)
    requires Sound(links) && LeavesInactive(links, controller, connections)
    requires forall c, h :: Stage(links, controller, connections, c, h)
    ensures FirstInactive(Refreshed(links, controller, connections)).Some?
  {
    var i :| 0 <= i < |links| && links[i].used &&
      if links[i].controller == controller then !Lists(connections, links[i].handle) else !links[i].active;
    HoldsIsFound(links, i, links[i].controller, links[i].handle);
    assert Stage(links, controller, connections, links[i].controller, links[i].handle);
    hide Sound, Refreshed, Lists;
  }

  lemma {:induction false} ActiveSlot(links: seq<Slot>, controller: nat, connections: seq<Connection>, i: nat)
    requires Sound(links) && !LeavesInactive(links, controller, connections) && Sound(Refreshed(links, controller, connections))
    requires forall c, h :: Stage(links, controller, connections, c, h)
    requires i < |links| && Refreshed(links, controller, connections)[i].used
    ensures Refreshed(links, controller, connections)[i].active
  {
    var slot := Refreshed(links, controller, connections)[i];
    HoldsIsFound(Refreshed(links, controller, connections), i, slot.controller, slot.handle);
    assert Stage(links, controller, connections, slot.controller, slot.handle);
    hide Refreshed, Lists, Sound;
  }

  /** News grow by at most one with each connection, so they pass any bound at some connection. */
  lemma {:induction false} FirstTooManyExists(links: seq<Slot>, controller: nat, connections: seq<Connection>) returns (k: nat)
    requires News(links, controller, connections) > Unused(links)
    ensures FirstTooMany(links, controller, connections, k)
  {
    var n := |connections| - 1;
    if News(links, controller, connections[..n]) > Unused(links) {
      k := FirstTooManyExists(links, controller, connections[..n]);
      assert connections[..n][..k] == connections[..k];
    } else {
      k := n;
    }
  }

  /** The exact condition: a refresh takes the slot of some link if and only if its list names one
      new link more than there are unused slots while some link is inactive by then. */
  lemma {:induction false} RefreshTakesExactly(links: seq<Slot>, controller: nat, connections: seq<Connection>)
    requires Sound(links)
    ensures !NoneTaken(links, controller, connections) <==>
      exists k :: FirstTooMany(links, controller, connections, k) && LeavesInactive(links, controller, connections[..k])
  {
    if k :| FirstTooMany(links, controller, connections, k) && LeavesInactive(links, controller, connections[..k]) {
      FirstTooManyTakes(links, controller, connections, k);
    }
    if j :| TakesAt(links, controller, connections, j) {
      NewsAfterTaking(links, controller, connections, j);
      var k := FirstTooManyExists(links, controller, connections[..j + 1]);
      assert connections[..j + 1][..k] == connections[..k];
      assert FirstTooMany(links, controller, connections, k);
      FirstTooManyTakes(links, controller, connections, k);
      if !LeavesInactive(links, controller, connections[..k]) {
        AllActiveToTheEnd(links, controller, connections, k, j);
        assert false;
      }
    }
  }

  lemma {:induction false} NewsAfterTaking(links: seq<Slot>, controller: nat, connections: seq<Connection>, j: nat)
    requires Sound(links) && TakesAt(links, controller, connections, j)
    ensures News(links, controller, connections[..j + 1]) > Unused(links)
  {
    var upTo := connections[..j + 1];
    assert upTo[..j] == connections[..j];
    if News(links, controller, upTo) <= Unused(links) {
      RoomForAll(links, controller, connections[..j]);
      assert Stage(links, controller, upTo[..j], controller, upTo[j].handle);
      RoomForOne(links, controller, upTo);
      RefreshedIsSound(links, controller, connections[..j]);
      TakesExactly(Refreshed(links, controller, connections[..j]), controller, connections[j]);
      assert false;
    }
  }

  /** The link still has its slot, with the counters it had, for the same device. */
  ghost predicate KeptBy(before: Option<Slot>, after: Option<Slot>) {
    before.Some? ==>
      after.Some? && after.value.rx == before.value.rx && after.value.tx == before.value.tx &&
      EqualIgnoringCase(after.value.address, before.value.address)
  }

  /** The list names the link's handle only with the link's own device. */
  ghost predicate SameDevice(slot: Option<Slot>, controller: nat, connections: seq<Connection>, c: nat, h: nat) {
    slot.Some? && controller == c ==>
      forall k :: 0 <= k < |connections| && connections[k].handle == h ==>
        EqualIgnoringCase(AddressString(connections[k].address), slot.value.address)
  }

  lemma {:induction false} BindKeeps(links: seq<Slot>, controller: nat, connection: Connection, before: Option<Slot>, c: nat, h: nat)
    requires Sound(links) && !MustTake(links, controller, connection) && KeptBy(before, Lookup(links, c, h))
    requires SameDevice(before, controller, [connection], c, h)
    ensures KeptBy(before, Lookup(Apply(links, Bind(controller, connection)), c, h))
  {
    BindWithoutTaking(links, controller, connection, c, h);
    assert [connection][0] == connection;
    hide Apply, Lookup, AddressString, Sound, MustTake, SlotFor;
  }

  /** Where no slot is taken every link keeps its slot, and its counters unless the list binds its
      handle to another device. */
  lemma {:induction false} RefreshKeepsCounters(links: seq<Slot>, controller: nat, connections: seq<Connection>, c: nat, h: nat)
    requires Sound(links) && NoneTaken(links, controller, connections)
    requires SameDevice(Lookup(links, c, h), controller, connections, c, h)
    ensures KeptBy(Lookup(links, c, h), Lookup(Refreshed(links, controller, connections), c, h))
  {
    if connections == [] {
      LookupAfterInactive(links, controller, c, h);
      hide Lookup, Deactivated, Sound;
    } else {
      var n := |connections| - 1;
      var front := connections[..n];
      assert SameDevice(Lookup(links, c, h), controller, front, c, h) && SameDevice(Lookup(links, c, h), controller, [connections[n]], c, h) by {
        hide Lookup, Sound, AddressString, EqualIgnoringCase, NoneTaken;
      }
      assert Refreshed(links, controller, connections) == Apply(Refreshed(links, controller, front), Bind(controller, connections[n]));
      hide *;
      EarlierTakes(links, controller, connections);
      RefreshKeepsCounters(links, controller, front, c, h);
      RefreshedIsSound(links, controller, front);
      NoTakeAtLast(links, controller, connections);
      BindKeeps(Refreshed(links, controller, front), controller, connections[n], Lookup(links, c, h), c, h);
    }
  }

  lemma EarlierTakes(links: seq<Slot>, controller: nat, connections: seq<Connection>)
    requires connections != [] && NoneTaken(links, controller, connections)
    ensures NoneTaken(links, controller, connections[..|connections| - 1])
  {
    hide Takes, Refreshed;
    var n := |connections| - 1;
    forall k ensures !TakesAt(links, controller, connections[..n], k) {
      assert 0 <= k < n ==> connections[..n][..k] == connections[..k];
      assert !TakesAt(links, controller, connections, k);
    }
  }

  lemma NoTakeAtLast(links: seq<Slot>, controller: nat, connections: seq<Connection>)
    requires Sound(links) && connections != [] && NoneTaken(links, controller, connections)
    ensures var n := |connections| - 1; !MustTake(Refreshed(links, controller, connections[..n]), controller, connections[n])
  {
    hide Takes, MustTake, Refreshed, Sound;
    var n := |connections| - 1;
    assert !TakesAt(links, controller, connections, n);
    RefreshedIsSound(links, controller, connections[..n]);
    TakesExactly(Refreshed(links, controller, connections[..n]), controller, connections[n]);
  }

  // ----- A listed link that loses its bytes -----

  /** One received packet of one byte for each of n connection handles. */
  ghost function Packets(n: nat): seq<Step> {
    if n == 0 then [] else Packets(n - 1) + [Account(Packet(0, n - 1, 1, true))]
  }

  /** The table after them. */
  function Filled(n: nat): (r: seq<Slot>)
    requires n <= SLOTS
    ensures |r| == SLOTS
    ensures forall i :: 0 <= i < SLOTS ==> r[i] == if i < n then Slot(0, i, "", 1, 0, false, true) else UNUSED
  {
    if n == 0 then Cleared(SLOTS) else Filled(n - 1)[n - 1 := Slot(0, n - 1, "", 1, 0, false, true)]
  }

  lemma {:induction false} PacketsFill(n: nat)
    requires n <= SLOTS
    ensures Run(Packets(n)) == Filled(n)
  {
    if n == 0 {
      assert Packets(0) == [];
    } else {
      PacketsFill(n - 1);
      var steps := Packets(n);
      assert steps[..|steps| - 1] == Packets(n - 1) && steps[|steps| - 1] == Account(Packet(0, n - 1, 1, true));
      NextPacket(n);
      hide Apply, Filled, Packets;
    }
  }

  lemma {:induction false} NextPacket(n: nat)
    requires 0 < n <= SLOTS
    ensures Apply(Filled(n - 1), Account(Packet(0, n - 1, 1, true))) == Filled(n)
  {
    var links, packet := Filled(n - 1), Packet(0, n - 1, 1, true);
    assert Filled(n) == links[n - 1 := Credit(NewSlot(0, n - 1), packet)];
    assert !links[n - 1].used && forall i :: 0 <= i < n - 1 ==> links[i].used;
    assert forall i :: 0 <= i < SLOTS ==> !Holds(links[i], 0, n - 1);
    hide Filled;
    hide *;
    UnusedIs(links, n - 1);
    NotFound(links, 0, n - 1);
    TakesUnused(links, 0, n - 1, n - 1);
    AccountInto(links, packet, n - 1);
  }

  lemma NotFound(links: seq<Slot>, controller: nat, handle: nat)
    requires forall i :: 0 <= i < |links| ==> !Holds(links[i], controller, handle)
    ensures Find(links, controller, handle).None?
  {
    hide Holds;
  }

  lemma AllUsed(links: seq<Slot>)
    requires forall i :: 0 <= i < |links| ==> links[i].used
    ensures FirstUnused(links).None?
  {
  }

  lemma UnusedIs(links: seq<Slot>, i: nat)
    requires i < |links| && !links[i].used && forall j :: 0 <= j < i ==> links[j].used
    ensures FirstUnused(links) == Some(i)
  {
  }

  lemma TakesUnused(links: seq<Slot>, controller: nat, handle: nat, i: nat)
    requires Find(links, controller, handle).None? && FirstUnused(links) == Some(i)
    ensures SlotFor(links, controller, handle) == Some(i)
    ensures i < |links| && Acquire(links, controller, handle) == links[i := NewSlot(controller, handle)]
  {
  }

  lemma TakesInactive(links: seq<Slot>, controller: nat, handle: nat, i: nat)
    requires Find(links, controller, handle).None? && FirstUnused(links).None? && FirstInactive(links) == Some(i)
    ensures SlotFor(links, controller, handle) == Some(i)
    ensures i < |links| && Acquire(links, controller, handle) == links[i := NewSlot(controller, handle)]
  {
  }

  lemma AccountInto(links: seq<Slot>, packet: Packet, i: nat)
    requires i < |links| && packet.payload > 0 && SlotFor(links, packet.controller, packet.handle) == Some(i)
    requires Acquire(links, packet.controller, packet.handle) == links[i := NewSlot(packet.controller, packet.handle)]
    ensures Apply(links, Account(packet)) == links[i := Credit(NewSlot(packet.controller, packet.handle), packet)]
  {
    hide Acquire, SlotFor;
  }

  lemma BindInto(links: seq<Slot>, controller: nat, connection: Connection, i: nat)
    requires i < |links| && SlotFor(links, controller, connection.handle) == Some(i)
    requires Acquire(links, controller, connection.handle) == links[i := NewSlot(controller, connection.handle)]
    ensures Apply(links, Bind(controller, connection)) ==
      links[i := Bound(NewSlot(controller, connection.handle), AddressString(connection.address))]
  {
    hide Acquire, SlotFor, AddressString, Bound;
  }

  lemma InactiveIs(links: seq<Slot>, i: nat)
    requires i < |links| && !links[i].active && forall j :: 0 <= j < i ==> links[j].active
    ensures FirstInactive(links) == Some(i)
  {
  }

  /** Without room a link can lose its bytes although the same list names it: in a table filled by
      packets alone, binding a new link takes the slot of handle 0, which the list names next, and
      which then starts again at zero in the slot of handle 1. */
  lemma {:induction false} RefreshCanLoseListedLink(a: Address, b: Address)
    ensures var links := Run(Packets(SLOTS));
      var after := Refreshed(links, 0, [Connection(SLOTS, a), Connection(0, b)]);
      && Lookup(links, 0, 0) == Some(Slot(0, 0, "", 1, 0, false, true))
      && Lookup(after, 0, 0) == Some(Slot(0, 0, AddressString(b), 0, 0, true, true))
      && Lookup(links, 0, 1).Some? && Lookup(after, 0, 1).None?
  {
    hide Run, Packets, AddressString, Hex, Find, FirstUnused, FirstInactive, Apply, Lookup;
    PacketsFill(SLOTS);
    var links, first, second := Filled(SLOTS), Connection(SLOTS, a), Connection(0, b);
    assert Deactivated(links, 0) == links;
    hide Deactivated;
    FilledLinks(links);
    var once := links[0 := Bound(NewSlot(0, SLOTS), AddressString(a))];
    FirstBind(links, first);
    var twice := once[1 := Bound(NewSlot(0, 0), AddressString(b))];
    SecondBind(once, links, second, AddressString(a));
    assert [first, second][..1] == [first] && [first][..0] == [];
    assert Refreshed(links, 0, [first]) == once;
    assert Refreshed(links, 0, [first, second]) == twice;
    FoundAfter(twice, links, AddressString(a), AddressString(b));
  }

  lemma FilledLinks(links: seq<Slot>)
    requires links == Filled(SLOTS)
    ensures Lookup(links, 0, 0) == Some(Slot(0, 0, "", 1, 0, false, true)) && Lookup(links, 0, 1).Some?
  {
    assert Holds(links[0], 0, 0) && Holds(links[1], 0, 1);
    var i := Find(links, 0, 0).value;
    assert i == 0;
  }

  lemma FirstBind(links: seq<Slot>, connection: Connection)
    requires links == Filled(SLOTS) && connection.handle == SLOTS
    ensures Apply(links, Bind(0, connection)) == links[0 := Bound(NewSlot(0, SLOTS), AddressString(connection.address))]
  {
    hide AddressString;
    assert forall i :: 0 <= i < SLOTS ==> links[i].used && !Holds(links[i], 0, SLOTS);
    assert !links[0].active;
    hide *;
    AllUsed(links);
    NotFound(links, 0, SLOTS);
    InactiveIs(links, 0);
    TakesInactive(links, 0, SLOTS, 0);
    BindInto(links, 0, connection, 0);
  }

  lemma SecondBind(once: seq<Slot>, links: seq<Slot>, connection: Connection, address: string)
    requires links == Filled(SLOTS) && once == links[0 := Bound(NewSlot(0, SLOTS), address)] && connection.handle == 0
    ensures Apply(once, Bind(0, connection)) == once[1 := Bound(NewSlot(0, 0), AddressString(connection.address))]
  {
    assert forall i :: 0 <= i < SLOTS ==> once[i].used && !Holds(once[i], 0, 0);
    assert once[0].active && !once[1].active;
    hide *;
    AllUsed(once);
    NotFound(once, 0, 0);
    InactiveIs(once, 1);
    TakesInactive(once, 0, 0, 1);
    BindInto(once, 0, connection, 1);
  }

  lemma FoundAfter(twice: seq<Slot>, links: seq<Slot>, a: string, b: string)
    requires links == Filled(SLOTS)
    requires twice == links[0 := Bound(NewSlot(0, SLOTS), a)][1 := Bound(NewSlot(0, 0), b)]
    ensures Lookup(twice, 0, 0) == Some(Slot(0, 0, b, 0, 0, true, true)) && Lookup(twice, 0, 1).None?
  {
    assert Holds(twice[1], 0, 0);
    assert forall i :: 0 <= i < SLOTS && i != 1 ==> !Holds(twice[i], 0, 0);
    var i := Find(twice, 0, 0).value;
    assert i == 1;
    assert forall j :: 0 <= j < SLOTS ==> !Holds(twice[j], 0, 1);
  }
}
