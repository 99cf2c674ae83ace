/** What reading a Bluetooth device adds up (lsm_bluetooth_traffic_read_device in
    src/bluetooth_traffic.c): the packets of exactly the links that are bound to it. */
module HciDevice {
  import opened Basics
  import opened HciFrame
  import opened HciLedger

  /** The slot's link is bound to the device. */
  predicate IsBoundTo(slot: Slot, controller: nat, device: Address) {
    slot.used && slot.controller == controller && slot.address == AddressString(device)
  }

  ghost predicate IsPrinted(address: string) {
    address == "" || exists a: Address :: address == AddressString(a)
  }

  lemma {:induction false} BelongsExactly(slot: Slot, controller: nat, device: Address)
    requires IsPrinted(slot.address)
    ensures BelongsTo(slot, controller, AddressString(device)) <==> IsBoundTo(slot, controller, device)
  {
    if slot.address != "" {
      var a: Address :| slot.address == AddressString(a);
      SameStringSameDevice(a, device);
      hide AddressString, EqualIgnoringCase;
    }
  }

  /** The table holds printed addresses only. */
  ghost predicate AllPrinted(links: seq<Slot>) {
    forall i :: 0 <= i < |links| ==> IsPrinted(links[i].address)
  }

  lemma {:induction false} StepKeepsPrinted(links: seq<Slot>, step: Step)
    requires AllPrinted(links)
    ensures AllPrinted(Apply(links, step))
  {
    hide AddressString, EqualIgnoringCase, SlotFor;
    if step.Bind? {
      assert IsPrinted(AddressString(step.connection.address));
    }
  }

  lemma {:induction false} RunIsPrinted(steps: seq<Step>)
    ensures AllPrinted(Run(steps))
  {
    if steps != [] {
      RunIsPrinted(steps[..|steps| - 1]);
      StepKeepsPrinted(Run(steps[..|steps| - 1]), steps[|steps| - 1]);
    }
  }

  /** The payloads that count for a device after a run: for every slot whose link is bound to it,
      those of the link's packets since its counters last began anew. */
  ghost function DevicePayloads(steps: seq<Step>, slots: seq<Slot>, controller: nat, device: Address, receive: bool): seq<nat> {
    if slots == [] then []
    else
      var n := |slots| - 1;
      DevicePayloads(steps, slots[..n], controller, device, receive) +
      if IsBoundTo(slots[n], controller, device) then Credited(steps, slots[n].controller, slots[n].handle, receive) else []
  }

  lemma {:induction false} SumOfBoth(a: seq<nat>, b: seq<nat>)
    ensures Sum(a + b) == Sum(a) + Sum(b)
  {
    if b == [] {
      assert a + b == a;
    } else {
      assert (a + b)[..|a + b| - 1] == a + b[..|b| - 1];
      SumOfBoth(a, b[..|b| - 1]);
    }
  }

  lemma {:induction false} CappedBoth(xs: seq<nat>, ys: seq<nat>, byte: nat, zs: seq<nat>)
    requires SatSum(xs) == Min(U64_MAX, Sum(ys)) && byte == Min(U64_MAX, Sum(zs))
    ensures SatSum(xs + [byte]) == Min(U64_MAX, Sum(ys + zs))
  {
    assert (xs + [byte])[..|xs|] == xs;
    SumOfBoth(ys, zs);
  }

  lemma BytesUnfold(steps: seq<Step>, slots: seq<Slot>, controller: nat, device: Address, receive: bool)
    requires slots != [] && IsPrinted(slots[|slots| - 1].address)
    ensures var n := |slots| - 1;
      var mine := IsBoundTo(slots[n], controller, device);
      && DeviceBytes(slots, controller, AddressString(device), receive) ==
         DeviceBytes(slots[..n], controller, AddressString(device), receive) + (if mine then [Bytes(slots[n], receive)] else [])
      && DevicePayloads(steps, slots, controller, device, receive) ==
         DevicePayloads(steps, slots[..n], controller, device, receive) +
         (if mine then Credited(steps, slots[n].controller, slots[n].handle, receive) else [])
      && (mine ==> slots[n].used)
  {
    BelongsExactly(slots[|slots| - 1], controller, device);
    hide BelongsTo, AddressString, Bytes, Credited, IsPrinted;
  }

  lemma NoSlots(steps: seq<Step>, controller: nat, device: Address, receive: bool)
    ensures SatSum(DeviceBytes([], controller, AddressString(device), receive)) ==
      Min(U64_MAX, Sum(DevicePayloads(steps, [], controller, device, receive)))
  {
  }

  lemma PrintedAt(links: seq<Slot>, i: nat)
    requires AllPrinted(links) && i < |links|
    ensures IsPrinted(links[i].address)
  {
    hide IsPrinted;
  }

  lemma RunLength(steps: seq<Step>)
    ensures |Run(steps)| == SLOTS
  {
  }

  lemma {:induction false} BytesOfSlots(steps: seq<Step>, n: nat, controller: nat, device: Address, receive: bool)
    requires n <= SLOTS == |Run(steps)|
    ensures SatSum(DeviceBytes(Run(steps)[..n], controller, AddressString(device), receive)) ==
      Min(U64_MAX, Sum(DevicePayloads(steps, Run(steps)[..n], controller, device, receive)))
  {
    hide *;
    var slots := Run(steps)[..n];
    if n == 0 {
      NoSlots(steps, controller, device, receive);
    } else {
      var slot := Run(steps)[n - 1];
      assert slots[..n - 1] == Run(steps)[..n - 1] && slots[n - 1] == slot;
      BytesOfSlots(steps, n - 1, controller, device, receive);
      RunIsPrinted(steps);
      PrintedAt(Run(steps), n - 1);
      BytesUnfold(steps, slots, controller, device, receive);
      var earlier := DeviceBytes(slots[..n - 1], controller, AddressString(device), receive);
      var paid := DevicePayloads(steps, slots[..n - 1], controller, device, receive);
      if IsBoundTo(slot, controller, device) {
        CountersAreCappedTotals(steps, n - 1, receive);
        CappedBoth(earlier, paid, Bytes(slot, receive), Credited(steps, slot.controller, slot.handle, receive));
      } else {
        assert earlier + [] == earlier && paid + [] == paid;
      }
    }
  }

  /** In every run reading a device gives the total, capped once, of the packets of exactly the links
      bound to it; it is found if and only if one of these is active. */
  lemma {:induction false} DeviceReadsItsPackets(steps: seq<Step>, controller: nat, device: Address, receive: bool)
    ensures SatSum(DeviceBytes(Run(steps), controller, AddressString(device), receive)) ==
      Min(U64_MAX, Sum(DevicePayloads(steps, Run(steps), controller, device, receive)))
    ensures ActiveLinks(Run(steps), controller, AddressString(device)) > 0 <==>
      exists i :: 0 <= i < SLOTS && IsBoundTo(Run(steps)[i], controller, device) && Run(steps)[i].active
  {
    RunLength(steps);
    assert Run(steps)[..SLOTS] == Run(steps);
    BytesOfSlots(steps, SLOTS, controller, device, receive);
    RunIsPrinted(steps);
    ActiveLinksExist(Run(steps), controller, AddressString(device));
    forall i | 0 <= i < SLOTS
      ensures BelongsTo(Run(steps)[i], controller, AddressString(device)) <==> IsBoundTo(Run(steps)[i], controller, device)
    {
      BelongsExactly(Run(steps)[i], controller, device);
    }
    hide Run, AddressString, BelongsTo, IsBoundTo, DeviceBytes, DevicePayloads, ActiveLinks, AllPrinted;
  }
}
