/** pci.h and inventory.c: scanning the configuration space of every bus, device and function. */
module Pci {
  import opened CTypes

  /** What a read of port 0xCFC returns for the address written to 0xCF8. */
  type Space = U32 -> U32

  /** The 0xCF8 address; the fields do not overlap, so the ORs add (see AddressBits). */
  function Address(bus: int, dev: int, func: int, offset: int): U32
    requires 0 <= bus < 256 && 0 <= dev < 32 && 0 <= func < 8 && 0 <= offset < 256
  {
    0x8000_0000 + bus * 0x1_0000 + dev * 0x800 + func * 0x100 + offset / 4 * 4
  }

  lemma AddressBits(bus: bv32, dev: bv32, func: bv32, offset: bv32)
    requires bus < 256 && dev < 32 && func < 8 && offset < 256
    ensures (1 << 31) | (bus << 16) | (dev << 11) | (func << 8) | (offset & 0xFC)
      == 0x8000_0000 + bus * 0x1_0000 + dev * 0x800 + func * 0x100 + (offset >> 2) * 4
  {
  }

  /** Address has those fields in those places: the enable bit, bus, device and function, and the register rounded down to a dword. */
  lemma AddressFields(bus: int, dev: int, func: int, offset: int)
    requires 0 <= bus < 256 && 0 <= dev < 32 && 0 <= func < 8 && 0 <= offset < 256
    ensures var a := Address(bus, dev, func, offset);
      && a / 0x100_0000 == 0x80 && a / 0x1_0000 % 0x100 == bus
      && a / 0x800 % 0x20 == dev && a / 0x100 % 0x8 == func
      && a % 4 == 0 && a % 0x100 <= offset < a % 0x100 + 4
  {
    var r := offset / 4 * 4;
    Quotient(0x100_0000, 0x80, bus * 0x1_0000 + dev * 0x800 + func * 0x100 + r);
    Quotient(0x1_0000, 0x8000 + bus, dev * 0x800 + func * 0x100 + r);
    Quotient(0x800, 0x10_0000 + 0x20 * bus + dev, func * 0x100 + r);
    Quotient(0x100, 0x80_0000 + 0x100 * bus + 8 * dev + func, r);
    Quotient(0x100, 0x80, bus);
    Quotient(0x20, 0x8000 + bus, dev);
    Quotient(0x8, 0x10_0000 + 0x20 * bus + dev, func);
  }

  lemma Quotient(base: int, q: int, r: int)
    requires base in {0x100_0000, 0x1_0000, 0x800, 0x100, 0x20, 0x8} && 0 <= r < base
    ensures (base * q + r) / base == q && (base * q + r) % base == r
  {
  }

  /** Different fields or registers have different addresses. */
  lemma AddressInjective(b1: int, d1: int, f1: int, o1: int, b2: int, d2: int, f2: int, o2: int)
    requires 0 <= b1 < 256 && 0 <= d1 < 32 && 0 <= f1 < 8 && 0 <= o1 < 256
    requires 0 <= b2 < 256 && 0 <= d2 < 32 && 0 <= f2 < 8 && 0 <= o2 < 256
    ensures Address(b1, d1, f1, o1) == Address(b2, d2, f2, o2) <==> b1 == b2 && d1 == d2 && f1 == f2 && o1 / 4 == o2 / 4
  {
    TopDigit(0x1_0000, b1, d1 * 0x800 + f1 * 0x100 + o1 / 4 * 4, b2, d2 * 0x800 + f2 * 0x100 + o2 / 4 * 4);
    TopDigit(0x800, d1, f1 * 0x100 + o1 / 4 * 4, d2, f2 * 0x100 + o2 / 4 * 4);
    TopDigit(0x100, f1, o1 / 4 * 4, f2, o2 / 4 * 4);
  }

  lemma TopDigit(base: int, q1: int, r1: int, q2: int, r2: int)
    requires base in {0x1_0000, 0x800, 0x100} && 0 <= r1 < base && 0 <= r2 < base
    ensures q1 * base + r1 == q2 * base + r2 <==> q1 == q2 && r1 == r2
  {
  }

  function ConfigRead(space: Space, bus: int, dev: int, func: int, offset: int): U32
    requires 0 <= bus < 256 && 0 <= dev < 32 && 0 <= func < 8 && 0 <= offset < 256
  {
    space(Address(bus, dev, func, offset))
  }

  // ---------------------------------------------------------------- all functions, in order

  /** (bus, device, function) triples in lexicographic order are numbered 0 to 65535. */
  function Bus(t: int): int { t / 256 }

  function Dev(t: int): int { t / 8 % 32 }

  function Func(t: int): int { t % 8 }

  lemma Numbering(bus: int, dev: int, func: int)
    requires 0 <= bus < 256 && 0 <= dev < 32 && 0 <= func < 8
    ensures var t := bus * 256 + dev * 8 + func;
      0 <= t < 65536 && Bus(t) == bus && Dev(t) == dev && Func(t) == func
  {
    var t := bus * 256 + dev * 8 + func;
    assert t / 8 == bus * 32 + dev;
  }

  /** A register of the t-th function. */
  function Register(space: Space, t: int, offset: int): U32
    requires 0 <= t < 65536 && 0 <= offset < 256
  {
    ConfigRead(space, Bus(t), Dev(t), Func(t), offset)
  }

  predicate Responds(space: Space, t: int)
    requires 0 <= t < 65536
  {
    Register(space, t, 0) % 0x1_0000 != 0xFFFF
  }

  /** The responding functions among the first n. */
  function Responders(space: Space, n: int): seq<int>
    requires 0 <= n <= 65536
  {
    if n == 0 then []
    else Responders(space, n - 1) + (if Responds(space, n - 1) then [n - 1] else [])
  }

  /** Exactly the responding triples, each once, in order. */
  lemma {:induction false} RespondersAre(space: Space, n: int)
    requires 0 <= n <= 65536
    ensures forall t :: t in Responders(space, n) <==> 0 <= t < n && Responds(space, t)
    ensures forall i, j :: 0 <= i < j < |Responders(space, n)| ==> Responders(space, n)[i] < Responders(space, n)[j]
  {
    hide Responds;
    if n > 0 {
      RespondersAre(space, n - 1);
      var b := Responders(space, n - 1);
      assert forall i :: 0 <= i < |b| ==> b[i] in b;
    }
  }

  /** hal_pci_device_count */
  method DeviceCount(space: Space) returns (count: int)
    ensures count == |Responders(space, 65536)|
  {
    hide Responds;
    count := 0;
    for bus := 0 to 256
      invariant count == |Responders(space, bus * 256)|
    {
      for dev := 0 to 32
        invariant count == |Responders(space, bus * 256 + dev * 8)|
      {
        for func := 0 to 8
          invariant count == |Responders(space, bus * 256 + dev * 8 + func)|
        {
          Numbering(bus, dev, func);
          RespondsIs(space, bus, dev, func);
          var data := ConfigRead(space, bus, dev, func, 0);
          if data % 0x1_0000 != 0xFFFF {
            count := count + 1;
          }
        }
      }
    }
  }

  lemma RespondsIs(space: Space, bus: int, dev: int, func: int)
    requires 0 <= bus < 256 && 0 <= dev < 32 && 0 <= func < 8
    ensures var t := bus * 256 + dev * 8 + func;
      0 <= t < 65536 && (Responds(space, t) <==> ConfigRead(space, bus, dev, func, 0) % 0x1_0000 != 0xFFFF)
  {
    Numbering(bus, dev, func);
  }

  class Inventory {
    var pciDevices: int
    const pciBus: array<int>
    const pciClass: array<int>
    const pciSubclass: array<int>
    const pciVendor: array<int>
    const pciDevice: array<int>

    ghost predicate Shape() {
      && pciBus.Length == pciClass.Length == pciSubclass.Length == pciVendor.Length == pciDevice.Length == 256
      && pciBus != pciClass && pciBus != pciSubclass && pciBus != pciVendor && pciBus != pciDevice
      && pciClass != pciSubclass && pciClass != pciVendor && pciClass != pciDevice
      && pciSubclass != pciVendor && pciSubclass != pciDevice && pciVendor != pciDevice
    }

    /** Row k describes the t-th function: its bus, and the fields its two header registers are made up of. */
    ghost predicate RowIs(space: Space, k: int, t: int)
      requires Shape() && 0 <= k < 256 && 0 <= t < 65536
      reads pciBus, pciClass, pciSubclass, pciVendor, pciDevice
    {
      && 0 <= t - 256 * pciBus[k] < 256
      && 0 <= pciVendor[k] < 0x1_0000 && Register(space, t, 0) == 0x1_0000 * pciDevice[k] + pciVendor[k]
      && 0 <= pciSubclass[k] < 0x100
      && 0 <= Register(space, t, 8) - (0x100_0000 * pciClass[k] + 0x1_0000 * pciSubclass[k]) < 0x1_0000
    }

    /** The table after the first n functions have been looked at. */
    ghost predicate Lists(space: Space, n: int)
      requires Shape() && 0 <= n <= 65536
      reads this, pciBus, pciClass, pciSubclass, pciVendor, pciDevice
    {
      var rs := Responders(space, n);
      && pciDevices == |rs|
      && forall k :: 0 <= k < Min(256, |rs|) ==> 0 <= rs[k] < 65536 && RowIs(space, k, rs[k])
    }

    constructor ()
      ensures Shape() && fresh(pciBus) && fresh(pciClass) && fresh(pciSubclass) && fresh(pciVendor) && fresh(pciDevice)
    {
      pciDevices := 0;
      pciBus, pciClass, pciSubclass := new int[256](_ => 0), new int[256](_ => 0), new int[256](_ => 0);
      pciVendor, pciDevice := new int[256](_ => 0), new int[256](_ => 0);
    }

    /** The reads of hal_pci_class_code, hal_pci_subclass_code, hal_pci_vendor_id and hal_pci_device_id. */
    static method Header(space: Space, bus: int, dev: int, func: int)
      returns (classCode: int, subclass: int, vendor: int, device: int)
      requires 0 <= bus < 256 && 0 <= dev < 32 && 0 <= func < 8
      ensures 0 <= vendor < 0x1_0000 && ConfigRead(space, bus, dev, func, 0) == 0x1_0000 * device + vendor
      ensures 0 <= subclass < 0x100
      ensures 0 <= ConfigRead(space, bus, dev, func, 8) - (0x100_0000 * classCode + 0x1_0000 * subclass) < 0x1_0000
    {
      hide ConfigRead;
      classCode := ConfigRead(space, bus, dev, func, 8) / 0x100_0000 % 0x100;
      subclass := ConfigRead(space, bus, dev, func, 8) / 0x1_0000 % 0x100;
      vendor := ConfigRead(space, bus, dev, func, 0) % 0x1_0000;
      device := ConfigRead(space, bus, dev, func, 0) / 0x1_0000 % 0x1_0000;
    }

    /** The body of the innermost loop. */
    method Visit(space: Space, bus: int, dev: int, func: int)
      requires Shape() && 0 <= bus < 256 && 0 <= dev < 32 && 0 <= func < 8
      requires Lists(space, bus * 256 + dev * 8 + func)
      modifies this, pciBus, pciClass, pciSubclass, pciVendor, pciDevice
      ensures Lists(space, bus * 256 + dev * 8 + func + 1)
    {
      hide Responds, ConfigRead;
      ghost var t := bus * 256 + dev * 8 + func;
      Numbering(bus, dev, func);
      RespondsIs(space, bus, dev, func);
      RespondersAre(space, t);
      var data := ConfigRead(space, bus, dev, func, 0);
      if data % 0x1_0000 != 0xFFFF {
        var classCode, subclass, vendor, device := Header(space, bus, dev, func);
        if pciDevices < 256 {
          pciBus[pciDevices] := bus;
          pciClass[pciDevices] := classCode;
          pciSubclass[pciDevices] := subclass;
          pciVendor[pciDevices] := vendor;
          pciDevice[pciDevices] := device;
        }
        pciDevices := pciDevices + 1;
      }
    }

    /** inventory_gather, the PCI part. */
    method Gather(space: Space)
      requires Shape()
      modifies this, pciBus, pciClass, pciSubclass, pciVendor, pciDevice
      ensures Lists(space, 65536)
    {
      hide Lists;
      pciDevices := 0;
      NothingListed(space);
      for bus := 0 to 256
        invariant Lists(space, bus * 256)
      {
        for dev := 0 to 32
          invariant Lists(space, bus * 256 + dev * 8)
        {
          for func := 0 to 8
            invariant Lists(space, bus * 256 + dev * 8 + func)
          {
            Visit(space, bus, dev, func);
          }
        }
      }
    }

    lemma NothingListed(space: Space)
      requires Shape() && pciDevices == 0
      ensures Lists(space, 0)
    {
    }
  }
}
