/** The table of Bluetooth links and their byte counters (src/bluetooth_traffic.c). A slot belongs
    to a connection handle of a controller; handles are reused, so a slot is bound to a device
    address, and slots run out, so a slot can be taken from a link that is not active. */
module HciLedger {
  import opened Basics
  import opened HciFrame

  const SLOTS: nat := 128

  datatype Slot = Slot(controller: nat, handle: nat, address: string, rx: U64, tx: U64, active: bool, used: bool)

  const UNUSED: Slot := Slot(0, 0, "", 0, 0, false, false)

  // ----- Addresses -----

  type Address = a: seq<Byte> | |a| == 6 witness [0, 0, 0, 0, 0, 0]

  const DIGITS: string := "0123456789ABCDEF"

  /** The six bytes as hexadecimal pairs, the last byte first. */
  function AddressString(a: Address): (r: string)
    ensures |r| == 17
  {
    Hex(a[5]) + ":" + Hex(a[4]) + ":" + Hex(a[3]) + ":" + Hex(a[2]) + ":" + Hex(a[1]) + ":" + Hex(a[0])
  }

  function Hex(b: Byte): (r: string)
    ensures |r| == 2
  {
    [DIGITS[b / 16], DIGITS[b % 16]]
  }

  predicate EqualIgnoringCase(a: string, b: string) {
    Lower(a) == Lower(b)
  }

  lemma DigitsDiffer(x: nat, y: nat)
    requires x < 16 && y < 16 && LowerChar(DIGITS[x]) == LowerChar(DIGITS[y])
    ensures x == y
  {
  }

  lemma {:induction false} HexDiffers(x: Byte, y: Byte)
    requires LowerChar(Hex(x)[0]) == LowerChar(Hex(y)[0]) && LowerChar(Hex(x)[1]) == LowerChar(Hex(y)[1])
    ensures x == y
  {
    DigitsDiffer(x / 16, y / 16);
    DigitsDiffer(x % 16, y % 16);
  }

  /** Comparing printed addresses without regard to case compares the devices. */
  lemma {:induction false} SameStringSameDevice(a: Address, b: Address)
    ensures EqualIgnoringCase(AddressString(a), AddressString(b)) <==> a == b
  {
    if EqualIgnoringCase(AddressString(a), AddressString(b)) {
      forall i | 0 <= i < 6 ensures a[i] == b[i] {
        var at := 3 * (5 - i);
        HexAt(a, i);
        HexAt(b, i);
        assert Lower(AddressString(a))[at] == Lower(AddressString(b))[at];
        assert Lower(AddressString(a))[at + 1] == Lower(AddressString(b))[at + 1];
        HexDiffers(a[i], b[i]);
      }
    }
  }

  lemma HexAt(a: Address, i: nat)
    requires i < 6
    ensures AddressString(a)[3 * (5 - i)] == Hex(a[i])[0] && AddressString(a)[3 * (5 - i) + 1] == Hex(a[i])[1]
  {
    hide Hex;
  }

  // ----- Slots -----

  predicate Holds(slot: Slot, controller: nat, handle: nat) {
    slot.used && slot.controller == controller && slot.handle == handle
  }

  /** The first slot of a link. */
  function Find(links: seq<Slot>, controller: nat, handle: nat): (r: Option<nat>)
    ensures r.Some? ==> r.value < |links| && Holds(links[r.value], controller, handle)
    ensures r.None? <==> forall i :: 0 <= i < |links| ==> !Holds(links[i], controller, handle)
  {
    if links == [] then None else
    var n := |links| - 1;
    var earlier := Find(links[..n], controller, handle);
    if earlier.None? && Holds(links[n], controller, handle) then Some(n) else earlier
  }

  function FirstUnused(links: seq<Slot>): (r: Option<nat>)
    ensures r.Some? ==> r.value < |links| && !links[r.value].used && forall i :: 0 <= i < r.value ==> links[i].used
    ensures r.None? ==> forall i :: 0 <= i < |links| ==> links[i].used
  {
    if links == [] then None else
    var n := |links| - 1;
    var earlier := FirstUnused(links[..n]);
    if earlier.None? && !links[n].used then Some(n) else earlier
  }

  function FirstInactive(links: seq<Slot>): (r: Option<nat>)
    ensures r.Some? ==> r.value < |links| && !links[r.value].active && forall i :: 0 <= i < r.value ==> links[i].active
    ensures r.None? ==> forall i :: 0 <= i < |links| ==> links[i].active
  {
    if links == [] then None else
    var n := |links| - 1;
    var earlier := FirstInactive(links[..n]);
    if earlier.None? && !links[n].active then Some(n) else earlier
  }

  /** The slot a link gets: its own, an unused one, or that of a link that is not active. */
  function SlotFor(links: seq<Slot>, controller: nat, handle: nat): (r: Option<nat>)
    ensures r.Some? ==> r.value < |links|
  {
    if Find(links, controller, handle).Some? then Find(links, controller, handle)
    else if FirstUnused(links).Some? then FirstUnused(links)
    else FirstInactive(links)
  }

  function NewSlot(controller: nat, handle: nat): Slot {
    Slot(controller, handle, "", 0, 0, false, true)
  }

  /** The table after the slot was looked up, cleared when it was not the link's own. */
  function Acquire(links: seq<Slot>, controller: nat, handle: nat): (r: seq<Slot>)
    ensures |r| == |links|
  {
    var i := SlotFor(links, controller, handle);
    if Find(links, controller, handle).Some? || i.None? then links
    else links[i.value := NewSlot(controller, handle)]
  }

  function Credit(slot: Slot, packet: Packet): Slot {
    if packet.receive then slot.(rx := SatAdd(slot.rx, packet.payload)) else slot.(tx := SatAdd(slot.tx, packet.payload))
  }

  predicate Rebinds(slot: Slot, remote: string) {
    slot.address != "" && !EqualIgnoringCase(slot.address, remote)
  }

  function Bound(slot: Slot, remote: string): Slot {
    (if Rebinds(slot, remote) then slot.(rx := 0, tx := 0) else slot).(address := remote, active := true)
  }

  function Deactivated(links: seq<Slot>, controller: nat): (r: seq<Slot>)
    ensures |r| == |links|
    ensures forall i :: 0 <= i < |links| ==>
      r[i] == if links[i].used && links[i].controller == controller then links[i].(active := false) else links[i]
  {
    if links == [] then [] else
    var n := |links| - 1;
    Deactivated(links[..n], controller) +
    [if links[n].used && links[n].controller == controller then links[n].(active := false) else links[n]]
  }

  // ----- Steps -----

  datatype Connection = Connection(handle: nat, address: Address)

  /** What happens to the table under its mutex. A refresh is `Inactive` followed by one `Bind`
      for every connection of the kernel's list. */
  datatype Step =
    | Account(packet: Packet)
    | Inactive(controller: nat)
    | Bind(controller: nat, connection: Connection)
    | Clear

  function Apply(links: seq<Slot>, step: Step): (r: seq<Slot>)
    ensures !step.Clear? ==> |r| == |links|
    ensures step.Clear? ==> |r| == SLOTS
  {
    match step
    case Account(packet) =>
      var i := SlotFor(links, packet.controller, packet.handle);
      if packet.payload == 0 || i.None? then links
      else
        var table := Acquire(links, packet.controller, packet.handle);
        table[i.value := Credit(table[i.value], packet)]
    case Inactive(controller) => Deactivated(links, controller)
    case Bind(controller, connection) =>
      var i := SlotFor(links, controller, connection.handle);
      if i.None? then links
      else
        var table := Acquire(links, controller, connection.handle);
        table[i.value := Bound(table[i.value], AddressString(connection.address))]
    case Clear => Cleared(SLOTS)
  }

  function Cleared(n: nat): (r: seq<Slot>)
    ensures |r| == n && forall i :: 0 <= i < n ==> r[i] == UNUSED
  {
    if n == 0 then [] else Cleared(n - 1) + [UNUSED]
  }

  ghost function Run(steps: seq<Step>): (r: seq<Slot>)
    ensures |r| == SLOTS
  {
    if steps == [] then Cleared(SLOTS) else Apply(Run(steps[..|steps| - 1]), steps[|steps| - 1])
  }

  ghost predicate Sound(links: seq<Slot>) {
    && (forall i, j :: 0 <= i < j < |links| && links[i].used && links[j].used ==>
          links[i].controller != links[j].controller || links[i].handle != links[j].handle)
    && (forall i :: 0 <= i < |links| && links[i].active ==> links[i].used)
    && forall i :: 0 <= i < |links| && !links[i].used ==> links[i].rx == links[i].tx == 0 && links[i].address == ""
  }

  lemma {:induction false} AcquireIsSound(links: seq<Slot>, controller: nat, handle: nat)
    requires Sound(links)
    ensures Sound(Acquire(links, controller, handle))
  {
  }

  lemma {:induction false} UpdateIsSound(links: seq<Slot>, i: nat, slot: Slot)
    requires Sound(links) && i < |links| && links[i].used && slot.used
    requires slot.controller == links[i].controller && slot.handle == links[i].handle
    ensures Sound(links[i := slot])
  {
  }

  /** Changing the slot of a link, other than its link, keeps the table sound. */
  lemma {:induction false} TouchIsSound(links: seq<Slot>, controller: nat, handle: nat)
    requires Sound(links)
    ensures var i, table := SlotFor(links, controller, handle), Acquire(links, controller, handle);
      i.Some? ==> forall slot: Slot ::
        slot.used && slot.controller == controller && slot.handle == handle ==> Sound(table[i.value := slot])
  {
    AcquireIsSound(links, controller, handle);
    var i, table := SlotFor(links, controller, handle), Acquire(links, controller, handle);
    if i.Some? {
      assert Holds(table[i.value], controller, handle);
      hide Sound, Acquire, SlotFor;
      forall slot: Slot | slot.used && slot.controller == controller && slot.handle == handle
        ensures Sound(table[i.value := slot])
      {
        UpdateIsSound(table, i.value, slot);
      }
    }
  }

  lemma {:induction false} AccountIsSound(links: seq<Slot>, packet: Packet)
    requires Sound(links)
    ensures Sound(Apply(links, Account(packet)))
  {
    hide Sound;
    TouchIsSound(links, packet.controller, packet.handle);
    assert SlotFor(links, packet.controller, packet.handle).Some? ==>
      Holds(Acquire(links, packet.controller, packet.handle)[SlotFor(links, packet.controller, packet.handle).value],
            packet.controller, packet.handle);
    hide SlotFor, Acquire, Find;
  }

  lemma {:induction false} BindIsSound(links: seq<Slot>, controller: nat, connection: Connection)
    requires Sound(links)
    ensures Sound(Apply(links, Bind(controller, connection)))
  {
    hide Sound, AddressString, EqualIgnoringCase;
    TouchIsSound(links, controller, connection.handle);
    assert SlotFor(links, controller, connection.handle).Some? ==>
      Holds(Acquire(links, controller, connection.handle)[SlotFor(links, controller, connection.handle).value],
            controller, connection.handle);
    hide SlotFor, Acquire, Find;
  }

  lemma InactiveIsSound(links: seq<Slot>, controller: nat)
    requires Sound(links)
    ensures Sound(Apply(links, Inactive(controller)))
  {
  }

  lemma {:induction false} StepIsSound(links: seq<Slot>, step: Step)
    requires Sound(links)
    ensures Sound(Apply(links, step))
  {
    match step
    case Account(packet) => AccountIsSound(links, packet);
    case Bind(controller, connection) => BindIsSound(links, controller, connection);
    case Inactive(controller) => InactiveIsSound(links, controller);
    case Clear => hide Find;
  }

  /** In every run the used slots belong to different links. */
  lemma {:induction false} RunIsSound(steps: seq<Step>)
    ensures Sound(Run(steps))
  {
    if steps != [] {
      RunIsSound(steps[..|steps| - 1]);
      StepIsSound(Run(steps[..|steps| - 1]), steps[|steps| - 1]);
    }
  }

  // ----- Every counter is the sum of its packets -----

  function Lookup(links: seq<Slot>, controller: nat, handle: nat): Option<Slot> {
    var i := Find(links, controller, handle);
    if i.Some? then Some(links[i.value]) else None
  }

  lemma {:induction false} HoldsIsFound(links: seq<Slot>, i: nat, controller: nat, handle: nat)
    requires Sound(links) && i < |links| && Holds(links[i], controller, handle)
    ensures Find(links, controller, handle) == Some(i)
  {
  }

  /** A link's counters begin anew where its slot is created, taken away or bound to another device. */
  predicate BeginsAnew(before: Option<Slot>, after: Option<Slot>) {
    before.None? || after.None? || Rebinds(before.value, after.value.address)
  }

  function Paid(step: Step, controller: nat, handle: nat, receive: bool): seq<nat> {
    match step
    case Account(p) => if p.controller == controller && p.handle == handle && p.receive == receive then [p.payload] else []
    case _ => []
  }

  /** The payloads of a link's packets in one direction since its counters last began anew. */
  ghost function Credited(steps: seq<Step>, controller: nat, handle: nat, receive: bool): seq<nat> {
    if steps == [] then [] else
    var earlier := steps[..|steps| - 1];
    var before, after := Lookup(Run(earlier), controller, handle), Lookup(Run(steps), controller, handle);
    (if BeginsAnew(before, after) then [] else Credited(earlier, controller, handle, receive)) +
    Paid(steps[|steps| - 1], controller, handle, receive)
  }

  function Bytes(slot: Slot, receive: bool): nat {
    if receive then slot.rx else slot.tx
  }

  lemma {:induction false} LookupAfterAcquire(links: seq<Slot>, controller: nat, handle: nat, c: nat, h: nat)
    requires Sound(links) && SlotFor(links, controller, handle).Some?
    ensures var table := Acquire(links, controller, handle);
      && Find(table, controller, handle) == SlotFor(links, controller, handle)
      && Lookup(table, controller, handle) ==
           (if Find(links, controller, handle).Some? then Lookup(links, controller, handle) else Some(NewSlot(controller, handle)))
      && (c != controller || h != handle ==> Lookup(table, c, h).None? || Lookup(table, c, h) == Lookup(links, c, h))
  {
    var i := SlotFor(links, controller, handle).value;
    var table := Acquire(links, controller, handle);
    AcquireIsSound(links, controller, handle);
    HoldsIsFound(table, i, controller, handle);
    if c != controller || h != handle {
      if Lookup(table, c, h).Some? {
        HoldsIsFound(links, Find(table, c, h).value, c, h);
      }
    }
  }

  lemma {:induction false} LookupAfterUpdate(links: seq<Slot>, i: nat, slot: Slot, c: nat, h: nat)
    requires Sound(links) && i < |links| && links[i].used && slot.used
    requires slot.controller == links[i].controller && slot.handle == links[i].handle
    ensures Lookup(links[i := slot], c, h) == if Holds(slot, c, h) then Some(slot) else Lookup(links, c, h)
  {
    var table := links[i := slot];
    UpdateIsSound(links, i, slot);
    if Holds(slot, c, h) {
      HoldsIsFound(table, i, c, h);
    } else if Lookup(links, c, h).Some? {
      HoldsIsFound(table, Find(links, c, h).value, c, h);
    }
  }

  lemma {:induction false} LookupAfterInactive(links: seq<Slot>, controller: nat, c: nat, h: nat)
    requires Sound(links)
    ensures var before, after := Lookup(links, c, h), Lookup(Deactivated(links, controller), c, h);
      before.Some? == after.Some? && (before.Some? ==> after.value == before.value.(active := after.value.active))
  {
    var table := Deactivated(links, controller);
    if Find(links, c, h).Some? {
      var i := Find(links, c, h).value;
      StepIsSound(links, Inactive(controller));
      HoldsIsFound(table, i, c, h);
    }
  }

  lemma {:induction false} AccountCredits(links: seq<Slot>, p: Packet, c: nat, h: nat, receive: bool)
    requires Sound(links) && Lookup(Apply(links, Account(p)), c, h).Some?
    ensures var before, after := Lookup(links, c, h), Lookup(Apply(links, Account(p)), c, h);
      Bytes(after.value, receive) ==
        SatAdd(if BeginsAnew(before, after) then 0 else Bytes(before.value, receive), Sum(Paid(Account(p), c, h, receive)))
  {
    var i := SlotFor(links, p.controller, p.handle);
    assert Sum(Paid(Account(p), c, h, receive)) ==
      if p.controller == c && p.handle == h && p.receive == receive then p.payload else 0;
    if i.Some? && p.payload != 0 {
      var table := Acquire(links, p.controller, p.handle);
      LookupAfterAcquire(links, p.controller, p.handle, c, h);
      AcquireIsSound(links, p.controller, p.handle);
      LookupAfterUpdate(table, i.value, Credit(table[i.value], p), c, h);
      assert Lookup(Apply(links, Account(p)), c, h) ==
        if Holds(table[i.value], c, h) then Some(Credit(table[i.value], p)) else Lookup(table, c, h);
      hide Acquire, SlotFor, Apply, Sound;
    }
  }

  lemma {:induction false} BindCredits(links: seq<Slot>, controller: nat, connection: Connection, c: nat, h: nat, receive: bool)
    requires Sound(links) && Lookup(Apply(links, Bind(controller, connection)), c, h).Some?
    ensures var before, after := Lookup(links, c, h), Lookup(Apply(links, Bind(controller, connection)), c, h);
      Bytes(after.value, receive) == if BeginsAnew(before, after) then 0 else Bytes(before.value, receive)
  {
    var i := SlotFor(links, controller, connection.handle);
    if i.Some? {
      var table := Acquire(links, controller, connection.handle);
      var remote := AddressString(connection.address);
      LookupAfterAcquire(links, controller, connection.handle, c, h);
      AcquireIsSound(links, controller, connection.handle);
      LookupAfterUpdate(table, i.value, Bound(table[i.value], remote), c, h);
      assert Lookup(Apply(links, Bind(controller, connection)), c, h) ==
        if Holds(table[i.value], c, h) then Some(Bound(table[i.value], remote)) else Lookup(table, c, h);
      hide Acquire, SlotFor, Apply, Sound, AddressString;
    }
  }

  lemma InactiveCredits(links: seq<Slot>, controller: nat, c: nat, h: nat, receive: bool)
    requires Sound(links) && Lookup(Apply(links, Inactive(controller)), c, h).Some?
    ensures var before, after := Lookup(links, c, h), Lookup(Apply(links, Inactive(controller)), c, h);
      Bytes(after.value, receive) == if BeginsAnew(before, after) then 0 else Bytes(before.value, receive)
  {
    LookupAfterInactive(links, controller, c, h);
    hide Lookup, Deactivated, Sound;
  }

  lemma ClearedHoldsNothing(c: nat, h: nat)
    ensures Lookup(Cleared(SLOTS), c, h).None?
  {
  }

  /** One step changes a link's counter by what it pays into it, after clearing it where it begins anew. */
  lemma {:induction false} StepCredits(links: seq<Slot>, step: Step, c: nat, h: nat, receive: bool)
    requires Sound(links) && Lookup(Apply(links, step), c, h).Some?
    ensures var before, after := Lookup(links, c, h), Lookup(Apply(links, step), c, h);
      Bytes(after.value, receive) ==
        SatAdd(if BeginsAnew(before, after) then 0 else Bytes(before.value, receive), Sum(Paid(step, c, h, receive)))
  {
    match step
    case Account(p) => AccountCredits(links, p, c, h, receive);
    case Bind(controller, connection) => BindCredits(links, controller, connection, c, h, receive);
    case Inactive(controller) => InactiveCredits(links, controller, c, h, receive);
    case Clear => ClearedHoldsNothing(c, h);
  }

  lemma {:induction false} SatSumOneMore(xs: seq<nat>, paid: seq<nat>)
    requires |paid| <= 1
    ensures SatSum(xs + paid) == SatAdd(SatSum(xs), Sum(paid))
  {
    if paid == [] {
      assert xs + paid == xs;
    } else {
      assert (xs + paid)[..|xs|] == xs;
      assert paid[..0] == [];
    }
  }

  /** In every run each used slot's counters are the saturating sums of the payloads of exactly
      its own link's packets since its creation, eviction or last binding to another device. */
  lemma {:induction false} CountersAreSums(steps: seq<Step>, i: nat, receive: bool)
    requires i < SLOTS && Run(steps)[i].used
    ensures var slot := Run(steps)[i];
      Bytes(slot, receive) == SatSum(Credited(steps, slot.controller, slot.handle, receive))
  {
    RunIsSound(steps);
    var slot := Run(steps)[i];
    HoldsIsFound(Run(steps), i, slot.controller, slot.handle);
    LookedUpCounters(steps, slot.controller, slot.handle, receive);
  }

  lemma {:induction false} LookedUpCounters(steps: seq<Step>, c: nat, h: nat, receive: bool)
    requires Lookup(Run(steps), c, h).Some?
    ensures Bytes(Lookup(Run(steps), c, h).value, receive) == SatSum(Credited(steps, c, h, receive))
  {
    if steps != [] {
      var earlier, step := steps[..|steps| - 1], steps[|steps| - 1];
      RunIsSound(earlier);
      StepCredits(Run(earlier), step, c, h, receive);
      var before, after := Lookup(Run(earlier), c, h), Lookup(Run(steps), c, h);
      var base := if BeginsAnew(before, after) then [] else Credited(earlier, c, h, receive);
      if !BeginsAnew(before, after) {
        LookedUpCounters(earlier, c, h, receive);
      }
      hide Apply, Lookup, Run, Find;
      SatSumOneMore(base, Paid(step, c, h, receive));
    }
  }

  /** Saturation happens once at the end: a counter is the exact total, capped. */
  lemma {:induction false} CountersAreCappedTotals(steps: seq<Step>, i: nat, receive: bool)
    requires i < SLOTS && Run(steps)[i].used
    ensures var slot := Run(steps)[i];
      Bytes(slot, receive) == Min(U64_MAX, Sum(Credited(steps, slot.controller, slot.handle, receive)))
  {
    var slot := Run(steps)[i];
    CountersAreSums(steps, i, receive);
    SatSumIsCappedSum(Credited(steps, slot.controller, slot.handle, receive));
  }

  // ----- What a packet and a refresh may displace -----

  /** Accounting a packet leaves every active link's slot in place, and its counters too unless the
      packet is its own. The packet is dropped exactly when the table is full of other active links. */
  lemma {:induction false} PacketsKeepActiveLinks(links: seq<Slot>, packet: Packet, i: nat)
    requires Sound(links) && i < |links| && links[i].active && packet.payload > 0
    ensures var after := Apply(links, Account(packet));
      after[i] == if Holds(links[i], packet.controller, packet.handle) then Credit(links[i], packet) else links[i]
    ensures Lookup(Apply(links, Account(packet)), packet.controller, packet.handle).None? <==>
      forall j :: 0 <= j < |links| ==> links[j].active && !Holds(links[j], packet.controller, packet.handle)
  {
    var c, h := packet.controller, packet.handle;
    var slot := SlotFor(links, c, h);
    if slot.Some? {
      LookupAfterAcquire(links, c, h, c, h);
      AcquireIsSound(links, c, h);
      var table := Acquire(links, c, h);
      LookupAfterUpdate(table, slot.value, Credit(table[slot.value], packet), c, h);
    }
    if Holds(links[i], c, h) {
      HoldsIsFound(links, i, c, h);
    }
  }

  /** The table after a controller's connection list was read: its links become inactive, then
      every listed one is bound, in the list's order. */
  function Refreshed(links: seq<Slot>, controller: nat, connections: seq<Connection>): (r: seq<Slot>)
    ensures |r| == |links|
  {
    if connections == [] then Deactivated(links, controller)
    else
      var n := |connections| - 1;
      Apply(Refreshed(links, controller, connections[..n]), Bind(controller, connections[n]))
  }

  lemma {:induction false} RefreshedIsSound(links: seq<Slot>, controller: nat, connections: seq<Connection>)
    requires Sound(links)
    ensures Sound(Refreshed(links, controller, connections))
  {
    if connections == [] {
      StepIsSound(links, Inactive(controller));
    } else {
      var n := |connections| - 1;
      RefreshedIsSound(links, controller, connections[..n]);
      StepIsSound(Refreshed(links, controller, connections[..n]), Bind(controller, connections[n]));
    }
  }

  // ----- Reading a device -----

  predicate BelongsTo(slot: Slot, controller: nat, address: string) {
    slot.used && slot.controller == controller && slot.address != "" && EqualIgnoringCase(slot.address, address)
  }

  /** The counters of a device's slots, in slot order. */
  function DeviceBytes(links: seq<Slot>, controller: nat, address: string, receive: bool): seq<nat> {
    if links == [] then [] else
    var n := |links| - 1;
    DeviceBytes(links[..n], controller, address, receive) +
    if BelongsTo(links[n], controller, address) then [Bytes(links[n], receive)] else []
  }

  function ActiveLinks(links: seq<Slot>, controller: nat, address: string): nat {
    if links == [] then 0 else
    var n := |links| - 1;
    ActiveLinks(links[..n], controller, address) + if BelongsTo(links[n], controller, address) && links[n].active then 1 else 0
  }

  lemma {:induction false} ActiveLinksExist(links: seq<Slot>, controller: nat, address: string)
    ensures ActiveLinks(links, controller, address) > 0 <==>
      exists i :: 0 <= i < |links| && BelongsTo(links[i], controller, address) && links[i].active
  {
    if links != [] {
      var n := |links| - 1;
      ActiveLinksExist(links[..n], controller, address);
      if i :| 0 <= i < n && BelongsTo(links[i], controller, address) && links[i].active {
        assert links[..n][i] == links[i];
      }
    }
  }

  lemma {:induction false} ReadOneMore(links: seq<Slot>, controller: nat, address: string)
    requires links != []
    ensures var earlier, slot := links[..|links| - 1], links[|links| - 1];
      var mine := BelongsTo(slot, controller, address);
      && SatSum(DeviceBytes(links, controller, address, true)) ==
           SatAdd(SatSum(DeviceBytes(earlier, controller, address, true)), if mine then slot.rx else 0)
      && SatSum(DeviceBytes(links, controller, address, false)) ==
           SatAdd(SatSum(DeviceBytes(earlier, controller, address, false)), if mine then slot.tx else 0)
      && ActiveLinks(links, controller, address) ==
           ActiveLinks(earlier, controller, address) + if mine && slot.active then 1 else 0
  {
    var earlier, slot := links[..|links| - 1], links[|links| - 1];
    SatSumOneMore(DeviceBytes(earlier, controller, address, true), if BelongsTo(slot, controller, address) then [slot.rx] else []);
    SatSumOneMore(DeviceBytes(earlier, controller, address, false), if BelongsTo(slot, controller, address) then [slot.tx] else []);
    assert Sum([slot.rx]) == slot.rx && Sum([slot.tx]) == slot.tx;
  }

  // ----- The table in place -----

  lemma DeactivatedAt(links: seq<Slot>, controller: nat)
    ensures |Deactivated(links, controller)| == |links|
    ensures forall i :: 0 <= i < |links| ==>
      (Deactivated(links, controller)[i] ==
       if links[i].used && links[i].controller == controller then links[i].(active := false) else links[i])
  {
  }

  lemma RunOneMore(steps: seq<Step>, step: Step)
    ensures Run(steps + [step]) == Apply(Run(steps), step)
    ensures step.Inactive? ==> Run(steps + [step]) == Deactivated(Run(steps), step.controller)
  {
    assert (steps + [step])[..|steps|] == steps;
  }

  lemma BindChanges(links: seq<Slot>, controller: nat, connection: Connection)
    ensures var i, table := SlotFor(links, controller, connection.handle), Acquire(links, controller, connection.handle);
      && |table| == |links| && (i.Some? ==> i.value < |links|)
      && Apply(links, Bind(controller, connection)) ==
           (if i.None? then links else table[i.value := Bound(table[i.value], AddressString(connection.address))])
      && (i.None? ==> table == links)
  {
    hide AddressString, EqualIgnoringCase, Bound;
  }

  lemma BoundIs(slot: Slot, remote: string)
    ensures Bound(slot, remote) ==
      (if slot.address != "" && !EqualIgnoringCase(slot.address, remote) then slot.(rx := 0, tx := 0) else slot)
        .(address := remote, active := true)
  {
  }

  class LinkTable {
    const links: array<Slot>
    ghost var steps: seq<Step>

    ghost predicate Valid()
      reads this, links
    {
      links.Length == SLOTS && links[..] == Run(steps)
    }

    constructor ()
      ensures Valid() && fresh(links) && steps == []
    {
      links := new Slot[SLOTS](_ => UNUSED);
      steps := [];
      new;
      assert links[..] == Cleared(SLOTS);
    }

    /** The slot of a link, created in an unused or inactive slot when it has none. */
    method LinkForHandle(controller: nat, handle: nat) returns (slot: Option<nat>)
      modifies links
      ensures slot == SlotFor(old(links[..]), controller, handle)
      ensures links[..] == Acquire(old(links[..]), controller, handle)
    {
      slot := None;
      for i := 0 to links.Length
        invariant links[..] == old(links[..])
        invariant Find(links[..i], controller, handle).None?
        invariant slot == FirstUnused(links[..i])
      {
        assert links[..i + 1][..i] == links[..i];
        if links[i].used && links[i].controller == controller && links[i].handle == handle {
          FindInPrefix(links[..], i + 1, controller, handle);
          return Some(i);
        }
        if !links[i].used && slot.None? {
          slot := Some(i);
        }
      }
      assert links[..links.Length] == links[..];
      if slot.None? {
        for i := 0 to links.Length
          invariant links[..] == old(links[..])
          invariant slot.None? && FirstInactive(links[..i]).None?
        {
          assert links[..i + 1][..i] == links[..i];
          if !links[i].active {
            slot := Some(i);
            InactiveInPrefix(links[..], i + 1);
            break;
          }
        }
        assert links[..links.Length] == links[..];
      }
      if slot.None? {
        return;
      }
      links[slot.value] := NewSlot(controller, handle);
    }

    method AccountPacket(packet: Packet)
      requires Valid()
      modifies this, links
      ensures Valid() && steps == old(steps) + [Account(packet)]
      ensures links[..] == Apply(old(links[..]), Account(packet))
    {
      if packet.payload != 0 {
        var slot := LinkForHandle(packet.controller, packet.handle);
        if slot.Some? {
          if packet.receive {
            links[slot.value] := links[slot.value].(rx := SatAdd(links[slot.value].rx, packet.payload));
          } else {
            links[slot.value] := links[slot.value].(tx := SatAdd(links[slot.value].tx, packet.payload));
          }
        }
      }
      steps := steps + [Account(packet)];
      assert steps[..|steps| - 1] == old(steps);
    }

    /** Puts a controller's connection list into the table. */
    method RefreshConnections(controller: nat, connections: seq<Connection>)
      requires Valid()
      modifies this, links
      ensures Valid()
      ensures links[..] == Refreshed(old(links[..]), controller, connections)
    {
      MarkInactive(controller);
      assert connections[..0] == [];
      for k := 0 to |connections|
        invariant Valid() && links[..] == Refreshed(old(links[..]), controller, connections[..k])
      {
        assert connections[..k + 1][..k] == connections[..k];
        BindConnection(controller, connections[k]);
      }
      assert connections[..|connections|] == connections;
    }

    method MarkInactive(controller: nat)
      requires Valid()
      modifies this, links
      ensures Valid() && steps == old(steps) + [Inactive(controller)]
      ensures links[..] == Deactivated(old(links[..]), controller)
    {
      hide *;
      ghost var before, after := links[..], Deactivated(links[..], controller);
      DeactivatedAt(before, controller);
      ValidTable();
      for i := 0 to links.Length
        invariant forall j :: 0 <= j < i ==> links[j] == after[j]
        invariant forall j :: i <= j < links.Length ==> links[j] == before[j]
        invariant steps == old(steps)
      {
        if links[i].used && links[i].controller == controller {
          links[i] := links[i].(active := false);
        }
      }
      assert links[..] == after;
      RunOneMore(steps, Inactive(controller));
      steps := steps + [Inactive(controller)];
      TableIsValid();
    }

    lemma ValidTable()
      requires Valid()
      ensures links.Length == SLOTS && links[..] == Run(steps)
    {
    }

    lemma TableIsValid()
      requires links.Length == SLOTS && links[..] == Run(steps)
      ensures Valid()
    {
    }

    method BindConnection(controller: nat, connection: Connection)
      requires Valid()
      modifies this, links
      ensures Valid() && steps == old(steps) + [Bind(controller, connection)]
      ensures links[..] == Apply(old(links[..]), Bind(controller, connection))
    {
      hide *;
      ValidTable();
      BindChanges(links[..], controller, connection);
      var slot := LinkForHandle(controller, connection.handle);
      if slot.Some? {
        var remote := AddressString(connection.address);
        BoundIs(links[slot.value], remote);
        if links[slot.value].address != "" && !EqualIgnoringCase(links[slot.value].address, remote) {
          links[slot.value] := links[slot.value].(rx := 0, tx := 0);
        }
        links[slot.value] := links[slot.value].(address := remote, active := true);
      }
      RunOneMore(steps, Bind(controller, connection));
      steps := steps + [Bind(controller, connection)];
      TableIsValid();
    }

    /** Adds up a device's counters; there is a result only while it has an active link. */
    method ReadDevice(available: bool, controller: nat, address: string) returns (rx: U64, tx: U64, count: nat, found: bool)
      requires links.Length < U32_MAX
      ensures available ==>
        && rx == SatSum(DeviceBytes(links[..], controller, address, true))
        && tx == SatSum(DeviceBytes(links[..], controller, address, false))
        && count == ActiveLinks(links[..], controller, address)
      ensures found <==> available && count > 0
    {
      rx, tx, count := 0, 0, 0;
      if available {
        for i := 0 to links.Length
          invariant count == ActiveLinks(links[..i], controller, address) <= i
          invariant rx == SatSum(DeviceBytes(links[..i], controller, address, true))
          invariant tx == SatSum(DeviceBytes(links[..i], controller, address, false))
        {
          hide DeviceBytes, ActiveLinks, SatSum, EqualIgnoringCase;
          assert links[..i + 1][..i] == links[..i];
          var slot := links[i];
          ReadOneMore(links[..i + 1], controller, address);
          if !slot.used || slot.controller != controller || slot.address == "" || !EqualIgnoringCase(slot.address, address) {
            continue;
          }
          rx := SatAdd(rx, slot.rx);
          tx := SatAdd(tx, slot.tx);
          if slot.active && count < U32_MAX {
            count := count + 1;
          }
        }
        assert links[..links.Length] == links[..];
      }
      found := available && count > 0;
    }
  }

  lemma {:induction false} FindInPrefix(links: seq<Slot>, n: nat, controller: nat, handle: nat)
    requires n <= |links| && Find(links[..n], controller, handle).Some?
    ensures Find(links, controller, handle) == Find(links[..n], controller, handle)
  {
    if n == |links| {
      assert links[..n] == links;
    } else {
      assert links[..|links| - 1][..n] == links[..n];
      FindInPrefix(links[..|links| - 1], n, controller, handle);
    }
  }

  lemma {:induction false} InactiveInPrefix(links: seq<Slot>, n: nat)
    requires n <= |links| && FirstInactive(links[..n]).Some?
    ensures FirstInactive(links) == FirstInactive(links[..n])
  {
    if n == |links| {
      assert links[..n] == links;
    } else {
      assert links[..|links| - 1][..n] == links[..n];
      InactiveInPrefix(links[..|links| - 1], n);
    }
  }
}
