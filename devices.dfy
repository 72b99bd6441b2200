/** System/Peripherals/Device.cs: every device created registers itself in
    one shared list, and its identifier is a version 8 identifier whose
    family byte is the device type and whose node byte is its slot, the
    list position it was added at, cast to a byte. */
module Devices {
  import opened Uuid
  import Guid

  /** The static `Device.Devices` list, created empty. */
  class Registry {
    var devices: seq<Device>

    /** Each registered device's slot is its position in the list, modulo 256. */
    ghost predicate Valid()
      reads this
    {
      forall k :: 0 <= k < |devices| ==> devices[k].Slot() == k % 256
    }

    constructor()
      ensures devices == [] && Valid()
    {
      devices := [];
    }
  }

  class Device {
    const guid: Guid.Guid
    /** Human-readable metadata. */
    var name: string
    var manufacturer: string

    /** Adds the new device to the list and gives it the identifier
        V8(random, 0, 0, deviceType, node), node being its position in the list
        cast to a byte. */
    constructor(registry: Registry, name: string, manufacturer: string, deviceType: Byte, random: seq<Byte>)
      requires |random| == 6 && registry.Valid()
      modifies registry
      ensures registry.devices == old(registry.devices) + [this] && registry.Valid()
      ensures this.name == name && this.manufacturer == manufacturer
      ensures Slot() == |old(registry.devices)| % 256 && Type() == deviceType
      ensures guid.Version() == 8 && guid.Variant() == 2 && guid.High() == 0 && guid.Low() == 0
      ensures guid.bytes[10..] == random
    {
      this.name := name;
      this.manufacturer := manufacturer;
      // the list's count once this device is in it, less one
      var count := |registry.devices| + 1;
      var node := LowByte(count - 1);
      var id := Guid.V8(random, 0, 0, deviceType, node);
      guid := id;
      new;
      registry.devices := registry.devices + [this];
    }

    /** `GUID.Node`: the slot the device was registered at. */
    function Slot(): int
    {
      guid.Node()
    }

    /** `GUID.Family`: the device type. */
    function Type(): int
    {
      guid.Family()
    }
  }

  /** Slots repeat every 256 devices: two registered devices share a slot
      exactly when their positions differ by a multiple of 256. */
  lemma SlotsRepeat(r: Registry, i: nat, j: nat)
    requires r.Valid() && i < j < |r.devices|
    ensures r.devices[i].Slot() == r.devices[j].Slot() <==> (j - i) % 256 == 0
  {
    var qi, qj := i / 256, j / 256;
    var d := (qj - qi) * 256 + (j % 256 - i % 256);
    assert j - i == d;
    if i % 256 == j % 256 {
      DivMulAdd(qj - qi, 256, 0);
    } else if i % 256 < j % 256 {
      DivMulAdd(qj - qi, 256, j % 256 - i % 256);
    } else {
      DivMulAdd(qj - qi - 1, 256, 256 + j % 256 - i % 256);
    }
  }
}
