/**
 ACPI table discovery over byte memory: what is found, what is recorded, and the structures
 of sections 5.2.5 to 5.2.9 of the ACPI specification laid out by a builder.
 */
module AcpiModel {
  import opened CTypes
  import opened Memory

  const RSDP_SIGNATURE: seq<Byte> := [82, 83, 68, 32, 80, 84, 82, 32]  // "RSD PTR "
  const RSDT: seq<Byte> := [82, 83, 68, 84]
  const XSDT: seq<Byte> := [88, 83, 68, 84]
  const FACP: seq<Byte> := [70, 65, 67, 80]

  lemma Signatures()
    ensures |RSDP_SIGNATURE| == 8 && forall i :: 0 <= i < 8 ==> RSDP_SIGNATURE[i] == "RSD PTR "[i] as int
    ensures |RSDT| == |XSDT| == |FACP| == 4
    ensures forall i :: 0 <= i < 4 ==> RSDT[i] == "RSDT"[i] as int && XSDT[i] == "XSDT"[i] as int && FACP[i] == "FACP"[i] as int
  {
  }

  function Bytes(m: Mem, a: nat, n: nat): (s: seq<Byte>)
    ensures |s| == n
  {
    seq<Byte>(n, i requires 0 <= i => Load8(m, a + i))
  }

  // ---------------------------------------------------------------- the root pointer

  predicate IsRsdp(m: Mem, p: nat) {
    Bytes(m, p, 8) == RSDP_SIGNATURE
  }

  /** The first RSDP on a 16-byte step from p that lies wholly before e. */
  function Scan(m: Mem, p: nat, e: nat): Option<nat>
    decreases e - p
  {
    if p + 36 > e then None else if IsRsdp(m, p) then Some(p) else Scan(m, p + 16, e)
  }

  function EbdaStart(m: Mem): nat {
    Load(m, 0x40E, 2) * 16
  }

  function FindRsdp(m: Mem): Option<nat> {
    var ebda := Scan(m, EbdaStart(m), EbdaStart(m) + 1024);
    if ebda.Some? then ebda else Scan(m, 0xE0000, 0x100000)
  }

  // ---------------------------------------------------------------- the root table

  predicate UsesXsdt(m: Mem, rsdp: nat) {
    Load8(m, rsdp + 15) >= 2 && Load(m, rsdp + 24, 8) != 0
  }

  /** Null, or the root table if it lies in the two mapped gigabytes. */
  function RootTable(m: Mem, rsdp: nat): nat {
    var a := if UsesXsdt(m, rsdp) then Load(m, rsdp + 24, 8) else Load(m, rsdp + 16, 4);
    if a < 0x8000_0000 then a else 0
  }

  predicate IsRoot(m: Mem, sdt: nat) {
    sdt != 0 && (Bytes(m, sdt, 4) == RSDT || Bytes(m, sdt, 4) == XSDT)
  }

  function EntrySize(m: Mem, rsdp: nat): nat {
    if UsesXsdt(m, rsdp) then 8 else 4
  }

  /** (length - 36) in 64 bits, divided, and cut to an unsigned int. */
  function EntryCount(m: Mem, sdt: nat, size: nat): nat
    requires size > 0
  {
    (Load(m, sdt + 4, 4) - 36) % WRAP / size % 0x1_0000_0000
  }

  function EntryAt(m: Mem, sdt: nat, size: nat, i: nat): nat {
    Load(m, sdt + 36 + size * i, size)
  }

  predicate Mapped(a: nat) {
    0 < a < 0x8000_0000
  }

  /** What is recorded once the first n entries have been looked at. */
  function Record(m: Mem, sdt: nat, size: nat, n: nat): seq<nat> {
    if n == 0 then []
    else
      var before := Record(m, sdt, size, n - 1);
      if |before| < 16 && Mapped(EntryAt(m, sdt, size, n - 1)) then before + [EntryAt(m, sdt, size, n - 1)] else before
  }

  /** The table addresses acpi_init records, or None when it falls back to the defaults. */
  function Parsed(m: Mem): Option<seq<nat>> {
    match FindRsdp(m)
    case None => None
    case Some(r) =>
      var sdt, size := RootTable(m, r), EntrySize(m, r);
      if IsRoot(m, sdt) then Some(Record(m, sdt, size, EntryCount(m, sdt, size))) else None
  }

  /** The first of the addresses whose table has the signature. */
  function FirstWith(m: Mem, addrs: seq<nat>, sig: seq<Byte>): Option<nat> {
    if addrs == [] then None
    else if Bytes(m, addrs[0], 4) == sig then Some(addrs[0])
    else FirstWith(m, addrs[1..], sig)
  }

  function LastWith(m: Mem, addrs: seq<nat>, sig: seq<Byte>): Option<nat> {
    if addrs == [] then None
    else if Bytes(m, addrs[|addrs| - 1], 4) == sig then Some(addrs[|addrs| - 1])
    else LastWith(m, addrs[..|addrs| - 1], sig)
  }

  // ---------------------------------------------------------------- shutdown

  /** A port as kernel_shutdown chooses it: the low 16 bits of the FADT field, unless they are zero. */
  function PortFor(field: nat, fallback: nat): nat {
    if field % 0x1_0000 != 0 then field % 0x1_0000 else fallback
  }

  lemma PortIs(field: nat, fallback: nat)
    ensures field < 0x1_0000 && field != 0 ==> PortFor(field, fallback) == field
    ensures field % 0x1_0000 == 0 ==> PortFor(field, fallback) == fallback
    ensures PortFor(field + 0x1_0000, fallback) == PortFor(field, fallback)
  {
  }

  /** The two ports written on shutdown after discovery from boot. */
  function Ports(m: Mem): (nat, nat) {
    match if Parsed(m).Some? then LastWith(m, Parsed(m).value, FACP) else None
    case None => (0x604, 0xB004)
    case Some(a) => (PortFor(Load(m, a + 64, 4), 0x604), PortFor(Load(m, a + 68, 4), 0xB004))
  }

  // ---------------------------------------------------------------- what is recorded

  function Take16(s: seq<nat>): seq<nat> {
    if |s| <= 16 then s else s[..16]
  }

  function OnlyMapped(s: seq<nat>): seq<nat> {
    if s == [] then []
    else OnlyMapped(s[..|s| - 1]) + (if Mapped(s[|s| - 1]) then [s[|s| - 1]] else [])
  }

  /** Recording stops for good at sixteen. */
  lemma {:induction false} RecordFull(m: Mem, sdt: nat, size: nat, i: nat, n: nat)
    requires i <= n && |Record(m, sdt, size, i)| == 16
    ensures Record(m, sdt, size, n) == Record(m, sdt, size, i)
    decreases n
  {
    if i < n {
      RecordFull(m, sdt, size, i, n - 1);
    }
  }

  /** In order, the first sixteen entries whose address is mapped. */
  lemma {:induction false} RecordIs(m: Mem, sdt: nat, size: nat, entries: seq<nat>)
    requires forall i :: 0 <= i < |entries| ==> EntryAt(m, sdt, size, i) == entries[i]
    ensures Record(m, sdt, size, |entries|) == Take16(OnlyMapped(entries))
  {
    hide EntryAt;
    if entries != [] {
      RecordIs(m, sdt, size, entries[..|entries| - 1]);
    }
  }

  lemma {:induction false} FirstIffLast(m: Mem, addrs: seq<nat>, sig: seq<Byte>)
    ensures FirstWith(m, addrs, sig).Some? <==> exists i :: 0 <= i < |addrs| && Bytes(m, addrs[i], 4) == sig
    ensures LastWith(m, addrs, sig).Some? <==> exists i :: 0 <= i < |addrs| && Bytes(m, addrs[i], 4) == sig
  {
    FirstExists(m, addrs, sig);
    LastExists(m, addrs, sig);
  }

  lemma {:induction false} FirstExists(m: Mem, addrs: seq<nat>, sig: seq<Byte>)
    ensures FirstWith(m, addrs, sig).Some? <==> exists i :: 0 <= i < |addrs| && Bytes(m, addrs[i], 4) == sig
  {
    if addrs != [] {
      FirstExists(m, addrs[1..], sig);
      if exists i :: 0 <= i < |addrs| && Bytes(m, addrs[i], 4) == sig {
        var i :| 0 <= i < |addrs| && Bytes(m, addrs[i], 4) == sig;
        if i > 0 {
          assert addrs[1..][i - 1] == addrs[i];
        }
      }
    }
  }

  lemma {:induction false} LastExists(m: Mem, addrs: seq<nat>, sig: seq<Byte>)
    ensures LastWith(m, addrs, sig).Some? <==> exists i :: 0 <= i < |addrs| && Bytes(m, addrs[i], 4) == sig
  {
    if addrs != [] {
      var b := addrs[..|addrs| - 1];
      LastExists(m, b, sig);
      if exists i :: 0 <= i < |addrs| && Bytes(m, addrs[i], 4) == sig {
        var i :| 0 <= i < |addrs| && Bytes(m, addrs[i], 4) == sig;
        if i < |b| {
          assert b[i] == addrs[i];
        }
      }
    }
  }

  /** The scan returns the earliest match on its steps, and None only if there is none. */
  lemma {:induction false} ScanIsFirst(m: Mem, p: nat, e: nat)
    ensures match Scan(m, p, e)
      case Some(r) => p <= r && (r - p) % 16 == 0 && r + 36 <= e && IsRsdp(m, r)
                      && forall q :: p <= q < r && (q - p) % 16 == 0 ==> !IsRsdp(m, q)
      case None => forall q :: p <= q && q + 36 <= e && (q - p) % 16 == 0 ==> !IsRsdp(m, q)
    decreases e - p
  {
    hide IsRsdp;
    if p + 36 <= e && !IsRsdp(m, p) {
      ScanIsFirst(m, p + 16, e);
    }
  }
}
