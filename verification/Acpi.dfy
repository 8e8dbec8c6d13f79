/** acpi.c and the port selection of power.c, proved against AcpiModel. */
module AcpiDevice {
  import opened CTypes
  import opened Memory
  import M = AcpiModel

  /** The comparison loop of scan_rsdp. */
  method MatchesAt(mem: Mem, p: nat, sig: seq<Byte>) returns (matched: bool)
    ensures matched <==> M.Bytes(mem, p, |sig|) == sig
  {
    matched := true;
    for i := 0 to |sig|
      invariant matched && M.Bytes(mem, p, |sig|)[..i] == sig[..i]
    {
      if Load8(mem, p + i) != sig[i] {
        matched := false;
        assert M.Bytes(mem, p, |sig|)[i] != sig[i];
        break;
      }
    }
  }

  /** scan_rsdp; zero stands for null. */
  method ScanRsdp(mem: Mem, s: nat, e: nat) returns (r: Option<nat>)
    ensures r == M.Scan(mem, s, e)
  {
    hide M.IsRsdp;
    var p := s;
    while p + 36 <= e
      invariant M.Scan(mem, s, e) == M.Scan(mem, p, e)
      decreases e - p
    {
      var found := MatchesAt(mem, p, M.RSDP_SIGNATURE);
      assert found <==> M.IsRsdp(mem, p) by { IsRsdpIs(mem, p); }
      if found {
        return Some(p);
      }
      p := p + 16;
    }
    r := None;
  }

  lemma IsRsdpIs(mem: Mem, p: nat)
    ensures M.IsRsdp(mem, p) <==> M.Bytes(mem, p, |M.RSDP_SIGNATURE|) == M.RSDP_SIGNATURE
  {
  }

  class Acpi {
    const tables: array<nat>   // acpi_tables[16]
    var tableCount: int
    var hasFadt: bool          // fadt_table is not null
    var pm1a: U16
    var pm1b: U16
    var slpA: U16
    var slpB: U16

    ghost predicate Valid()
      reads this
    {
      tables.Length == 16 && 0 <= tableCount <= 16 && slpA == 0 && slpB == 0
    }

    /** Boot state: zeroed static data. */
    constructor ()
      ensures Valid() && fresh(tables) && tableCount == 0 && !hasFadt
    {
      tables := new nat[16](_ => 0);
      tableCount, hasFadt := 0, false;
      pm1a, pm1b, slpA, slpB := 0, 0, 0, 0;
    }

    /** What the PM1 control fields are after recording these tables. */
    ghost predicate FadtFrom(mem: Mem, addrs: seq<nat>, had: bool, a0: U16, b0: U16)
      reads this
    {
      match M.LastWith(mem, addrs, M.FACP)
      case Some(a) => hasFadt && pm1a == Load(mem, a + 64, 4) % 0x1_0000 && pm1b == Load(mem, a + 68, 4) % 0x1_0000
      case None => hasFadt == had && pm1a == a0 && pm1b == b0
    }

    /** One recorded entry; a FACP also leaves its PM1 control fields. */
    method RecordTable(mem: Mem, addr: nat)
      requires Valid() && tableCount < 16
      modifies this, tables
      ensures Valid() && tableCount == old(tableCount) + 1
      ensures tables[..tableCount] == old(tables[..tableCount]) + [addr]
      ensures if M.Bytes(mem, addr, 4) == M.FACP
        then hasFadt && pm1a == Load(mem, addr + 64, 4) % 0x1_0000 && pm1b == Load(mem, addr + 68, 4) % 0x1_0000
        else hasFadt == old(hasFadt) && pm1a == old(pm1a) && pm1b == old(pm1b)
    {
      hide Load;
      tables[tableCount] := addr;
      tableCount := tableCount + 1;
      var facp := MatchesAt(mem, addr, M.FACP);
      if facp {
        pm1a := Load(mem, addr + 64, 4) % 0x1_0000;
        pm1b := Load(mem, addr + 68, 4) % 0x1_0000;
        slpA, slpB := 0, 0;
        hasFadt := true;
      }
    }

    /** The loop over the entries of the root table. */
    method RecordEntries(mem: Mem, sdt: nat, size: nat)
      requires Valid() && size > 0
      modifies this, tables
      ensures Valid()
      ensures tables[..tableCount] == M.Record(mem, sdt, size, M.EntryCount(mem, sdt, size))
      ensures FadtFrom(mem, tables[..tableCount], old(hasFadt), old(pm1a), old(pm1b))
    {
      hide Load, M.EntryAt, M.EntryCount;
      tableCount := 0;
      var entries := M.EntryCount(mem, sdt, size);
      var i := 0;
      assert tables[..0] == [];
      while i < entries && tableCount < 16
        invariant Valid() && 0 <= i <= entries
        invariant tables[..tableCount] == M.Record(mem, sdt, size, i)
        invariant FadtFrom(mem, tables[..tableCount], old(hasFadt), old(pm1a), old(pm1b))
      {
        var addr := M.EntryAt(mem, sdt, size, i);
        if M.Mapped(addr) {
          ghost var before := tables[..tableCount];
          RecordTable(mem, addr);
          assert (before + [addr])[..|before|] == before;
        }
        i := i + 1;
      }
      if tableCount == 16 {
        M.RecordFull(mem, sdt, size, i, entries);
      }
    }

    /** acpi_init, without its messages. */
    method Init(mem: Mem)
      requires Valid()
      modifies this, tables
      ensures Valid()
      ensures match M.Parsed(mem)
        case Some(addrs) => tables[..tableCount] == addrs && FadtFrom(mem, addrs, old(hasFadt), old(pm1a), old(pm1b))
        case None => tableCount == old(tableCount) && tables[..] == old(tables[..])
                     && hasFadt && pm1a == 0x604 && pm1b == 0xB004
    {
      hide Load, M.Record, M.EntryCount, M.Scan, FadtFrom;
      var start := Load(mem, 0x40E, 2) * 16;
      var rsdp := ScanRsdp(mem, start, start + 1024);
      if rsdp.None? {
        rsdp := ScanRsdp(mem, 0xE0000, 0x100000);
      }
      if rsdp.Some? {
        var r := rsdp.value;
        var useXsdt := Load8(mem, r + 15) >= 2 && Load(mem, r + 24, 8) != 0;
        var sdt := 0;
        if useXsdt && Load(mem, r + 24, 8) < 0x8000_0000 {
          sdt := Load(mem, r + 24, 8);
        } else if !useXsdt && Load(mem, r + 16, 4) < 0x8000_0000 {
          sdt := Load(mem, r + 16, 4);
        }
        var isRsdt := MatchesAt(mem, sdt, M.RSDT);
        var isXsdt := MatchesAt(mem, sdt, M.XSDT);
        if sdt != 0 && (isRsdt || isXsdt) {
          RecordEntries(mem, sdt, if useXsdt then 8 else 4);
          return;
        }
      }
      pm1a, pm1b := 0x604, 0xB004;
      slpA, slpB := 0, 0;
      hasFadt := true;
    }

    /** acpi_get_table */
    method GetTable(mem: Mem, sig: seq<Byte>) returns (r: Option<nat>)
      requires Valid() && |sig| == 4
      ensures r == M.FirstWith(mem, tables[..tableCount], sig)
    {
      for i := 0 to tableCount
        invariant M.FirstWith(mem, tables[..tableCount], sig) == M.FirstWith(mem, tables[i..tableCount], sig)
      {
        assert tables[i..tableCount][1..] == tables[i + 1..tableCount];
        var found := MatchesAt(mem, tables[i], sig);
        if found {
          return Some(tables[i]);
        }
      }
      r := None;
    }

    /** The ports and values kernel_shutdown writes. */
    method ShutdownWrites() returns (portA: U16, valueA: U16, portB: U16, valueB: U16)
      requires Valid()
      ensures valueA == valueB == 0x2000
      ensures portA == if hasFadt && pm1a != 0 then pm1a else 0x604
      ensures portB == if hasFadt && pm1b != 0 then pm1b else 0xB004
    {
      portA, portB := 0x604, 0xB004;
      valueA, valueB := 0x2000, 0x2000;
      if hasFadt {
        if pm1a != 0 {
          portA := pm1a;
        }
        if pm1b != 0 {
          portB := pm1b;
        }
        valueA := (slpA as bv16 | 0x2000) as int;
        valueB := (slpB as bv16 | 0x2000) as int;
      }
    }
  }

  /**
   Boot, discovery, lookup and shutdown in one: whatever memory holds, the ports come from
   the last recorded FACP, and after a successful parse a FADT is known exactly if a FACP
   table can be looked up.
   */
  method BootAndShutDown(mem: Mem)
    returns (fadt: bool, facp: Option<nat>, portA: U16, valueA: U16, portB: U16, valueB: U16)
    ensures valueA == valueB == 0x2000
    ensures M.Parsed(mem).Some? ==> (fadt <==> facp.Some?) && facp == M.FirstWith(mem, M.Parsed(mem).value, M.FACP)
    ensures M.Parsed(mem).None? ==> fadt && facp == None
    ensures (portA, portB) == M.Ports(mem)
  {
    hide Load, M.Parsed, M.Bytes;
    var acpi := new Acpi();
    assert acpi.tables[..0] == [];
    acpi.Init(mem);
    fadt := acpi.hasFadt;
    facp := acpi.GetTable(mem, M.FACP);
    if M.Parsed(mem).Some? {
      M.FirstIffLast(mem, M.Parsed(mem).value, M.FACP);
    }
    portA, valueA, portB, valueB := acpi.ShutdownWrites();
  }
}
