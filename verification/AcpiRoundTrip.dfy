/** Discovery reads back exactly what a firmware builder lays out in memory. */
module AcpiRoundTrip {
  import opened CTypes
  import opened Memory
  import opened AcpiModel

  /** The PM1 control fields are those of a FADT, signature FACP; other tables have none. */
  datatype Table = Table(addr: nat, sig: seq<Byte>, pm1a: U32, pm1b: U32)

  /** An RSDP of some revision at `rsdp` that leads to an XSDT (wide) or RSDT at `root` listing the tables, with `slack` bytes behind them. */
  datatype Firmware = Firmware(rsdp: nat, revision: Byte, wide: bool, root: nat, tables: seq<Table>, slack: nat)

  // ---------------------------------------------------------------- the builder

  function StoreBytes(m: Mem, a: nat, s: seq<Byte>): Mem
    decreases |s|
  {
    if s == [] then m else StoreBytes(m[a := s[0]], a + 1, s[1..])
  }

  function Size(f: Firmware): nat {
    if f.wide then 8 else 4
  }

  function RootLength(f: Firmware): nat {
    36 + Size(f) * |f.tables| + f.slack
  }

  /** The bytes a table lays claim to: its header, and in a FADT the body up to the PM1b control field. */
  function Extent(t: Table): nat {
    if t.sig == FACP then 72 else 36
  }

  function BuildTable(m: Mem, t: Table): Mem {
    var signed := StoreBytes(m, t.addr, t.sig);
    if t.sig == FACP then Store(Store(signed, t.addr + 64, 4, t.pm1a), t.addr + 68, 4, t.pm1b) else signed
  }

  function BuildTables(m: Mem, ts: seq<Table>): Mem {
    if ts == [] then m else BuildTable(BuildTables(m, ts[..|ts| - 1]), ts[|ts| - 1])
  }

  function BuildEntries(m: Mem, a: nat, size: nat, ts: seq<Table>): Mem {
    if ts == [] then m
    else Store(BuildEntries(m, a, size, ts[..|ts| - 1]), a + size * (|ts| - 1), size, ts[|ts| - 1].addr)
  }

  function BuildRoot(m: Mem, f: Firmware): Mem {
    var signed := StoreBytes(m, f.root, if f.wide then XSDT else RSDT);
    BuildEntries(Store(signed, f.root + 4, 4, RootLength(f)), f.root + 36, Size(f), f.tables)
  }

  /** With a 64-bit root address, or with a 32-bit one and, from revision 2 on, a null 64-bit one. */
  function BuildRsdp(m: Mem, f: Firmware): Mem {
    var signed := StoreBytes(m, f.rsdp, RSDP_SIGNATURE)[f.rsdp + 15 := f.revision];
    if f.wide then Store(signed, f.rsdp + 24, 8, f.root)
    else
      var narrow := Store(signed, f.rsdp + 16, 4, f.root);
      if f.revision >= 2 then Store(narrow, f.rsdp + 24, 8, 0) else narrow
  }

  function Build(m: Mem, f: Firmware): Mem {
    BuildRsdp(BuildRoot(BuildTables(m, f.tables), f), f)
  }

  /** Structures do not overlap, fields have room for what is put in them, and only revision 2 knows the XSDT. */
  ghost predicate Buildable(f: Firmware) {
    && 0 < f.root < Pow256(Size(f)) && RootLength(f) < 0x1_0000_0000 && f.slack < Size(f) && (f.wide ==> f.revision >= 2)
    && Apart(f.rsdp, 36, f.root, RootLength(f))
    && (forall i :: 0 <= i < |f.tables| ==>
          && |f.tables[i].sig| == 4 && f.tables[i].addr < Pow256(Size(f))
          && Apart(f.tables[i].addr, Extent(f.tables[i]), f.rsdp, 36)
          && Apart(f.tables[i].addr, Extent(f.tables[i]), f.root, RootLength(f)))
    && AllApart(f.tables)
  }

  ghost predicate AllApart(ts: seq<Table>) {
    forall i, j :: 0 <= i < j < |ts| ==> Apart(ts[i].addr, Extent(ts[i]), ts[j].addr, Extent(ts[j]))
  }

  /** What the builder put into a table is there. */
  ghost predicate Holds(m: Mem, t: Table) {
    && Bytes(m, t.addr, 4) == t.sig
    && (t.sig == FACP ==> Load(m, t.addr + 64, 4) == t.pm1a && Load(m, t.addr + 68, 4) == t.pm1b)
  }

  /** r is on a 16-byte step of the area from p to e, and the first match there. */
  ghost predicate FirstIn(m: Mem, p: nat, e: nat, r: nat) {
    && p <= r && (r - p) % 16 == 0 && r + 36 <= e
    && forall q :: p <= q < r && (q - p) % 16 == 0 ==> !IsRsdp(m, q)
  }

  ghost predicate NoneIn(m: Mem, p: nat, e: nat) {
    forall q :: p <= q && q + 36 <= e && (q - p) % 16 == 0 ==> !IsRsdp(m, q)
  }

  /** Nothing in the searched areas looks like an RSDP before the one at r. */
  ghost predicate NoEarlierMatch(m: Mem, r: nat) {
    || FirstIn(m, EbdaStart(m), EbdaStart(m) + 1024, r)
    || (NoneIn(m, EbdaStart(m), EbdaStart(m) + 1024) && FirstIn(m, 0xE0000, 0x100000, r))
  }

  // ---------------------------------------------------------------- reading back bytes

  lemma {:induction false} StoreBytesFrames(m: Mem, a: nat, s: seq<Byte>)
    ensures SameOutside(StoreBytes(m, a, s), m, a, a + |s|)
    decreases |s|
  {
    if s != [] {
      StoreBytesFrames(m[a := s[0]], a + 1, s[1..]);
    }
  }

  lemma {:induction false} StoreBytesReads(m: Mem, a: nat, s: seq<Byte>)
    ensures Bytes(StoreBytes(m, a, s), a, |s|) == s
    decreases |s|
  {
    if s != [] {
      var n := m[a := s[0]];
      StoreBytesReads(n, a + 1, s[1..]);
      StoreBytesFrames(n, a + 1, s[1..]);
      var r := StoreBytes(m, a, s);
      forall i | 0 <= i < |s| ensures Bytes(r, a, |s|)[i] == s[i] {
        if i > 0 {
          assert Bytes(r, a + 1, |s| - 1)[i - 1] == s[1..][i - 1];
        }
      }
    }
  }

  lemma SameBytesRead(m: Mem, n: Mem, a: nat, k: nat)
    requires SameBytes(m, n, a, a + k)
    ensures Bytes(m, a, k) == Bytes(n, a, k) && Load(m, a, k) == Load(n, a, k)
  {
    LoadDepends(m, n, a, k);
  }

  // ---------------------------------------------------------------- reading back structures

  lemma TableRead(m: Mem, t: Table)
    requires |t.sig| == 4
    ensures Holds(BuildTable(m, t), t) && SameOutside(BuildTable(m, t), m, t.addr, t.addr + Extent(t))
  {
    hide Load, Store, StoreBytes, Bytes;
    var s := StoreBytes(m, t.addr, t.sig);
    StoreBytesFrames(m, t.addr, t.sig);
    StoreBytesReads(m, t.addr, t.sig);
    if t.sig == FACP {
      var a := Store(s, t.addr + 64, 4, t.pm1a);
      var b := Store(a, t.addr + 68, 4, t.pm1b);
      Pow256Of8();
      StoreFrames(s, t.addr + 64, 4, t.pm1a);
      StoreFrames(a, t.addr + 68, 4, t.pm1b);
      LoadStore(s, t.addr + 64, 4, t.pm1a);
      LoadStore(a, t.addr + 68, 4, t.pm1b);
      SameBytesRead(b, a, t.addr + 64, 4);
      SameBytesRead(b, s, t.addr, 4);
    }
  }

  /** A table keeps its contents under changes elsewhere. */
  lemma HoldsElsewhere(m: Mem, n: Mem, lo: nat, k: nat, t: Table)
    requires SameOutside(n, m, lo, lo + k) && Apart(t.addr, Extent(t), lo, k)
    requires |t.sig| == 4 && Holds(m, t)
    ensures Holds(n, t)
  {
    hide Load, Bytes;
    SameBytesRead(n, m, t.addr, 4);
    if t.sig == FACP {
      SameBytesRead(n, m, t.addr + 64, 4);
      SameBytesRead(n, m, t.addr + 68, 4);
    }
  }

  lemma {:induction false} TablesRead(m: Mem, ts: seq<Table>)
    requires AllApart(ts) && forall i :: 0 <= i < |ts| ==> |ts[i].sig| == 4
    ensures forall i :: 0 <= i < |ts| ==> Holds(BuildTables(m, ts), ts[i])
  {
    hide Holds, BuildTable;
    if ts != [] {
      var k := |ts| - 1;
      var b := BuildTables(m, ts[..k]);
      TablesRead(m, ts[..k]);
      TableRead(b, ts[k]);
      forall i | 0 <= i < k ensures Holds(BuildTables(m, ts), ts[i]) {
        assert ts[..k][i] == ts[i];
        HoldsElsewhere(b, BuildTables(m, ts), ts[k].addr, Extent(ts[k]), ts[i]);
      }
    }
  }

  lemma {:induction false} EntriesFrame(m: Mem, a: nat, size: nat, ts: seq<Table>)
    ensures SameOutside(BuildEntries(m, a, size, ts), m, a, a + size * |ts|)
  {
    hide Store;
    if ts != [] {
      var k := |ts| - 1;
      EntriesFrame(m, a, size, ts[..k]);
      StepUp(size, k);
      StoreFrames(BuildEntries(m, a, size, ts[..k]), a + size * k, size, ts[k].addr);
    }
  }

  lemma {:induction false} EntriesRead(m: Mem, a: nat, size: nat, ts: seq<Table>, i: nat)
    requires i < |ts| && ts[i].addr < Pow256(size)
    ensures Load(BuildEntries(m, a, size, ts), a + size * i, size) == ts[i].addr
    decreases |ts|
  {
    hide Store, Load, Pow256;
    var k := |ts| - 1;
    var b := BuildEntries(m, a, size, ts[..k]);
    if i == k {
      LoadStore(b, a + size * k, size, ts[k].addr);
    } else {
      EntriesRead(m, a, size, ts[..k], i);
      StepUp(size, i);
      Monotone(size, i + 1, k);
      LoadStoreApart(b, a + size * k, size, ts[k].addr, a + size * i, size);
    }
  }

  lemma StepUp(s: nat, k: nat)
    ensures s * (k + 1) == s * k + s
  {
  }

  lemma Monotone(s: nat, i: nat, j: nat)
    requires i <= j
    ensures s * i <= s * j
  {
  }

  lemma RootRead(m: Mem, f: Firmware)
    requires Buildable(f)
    ensures var r := BuildRoot(m, f);
      && SameOutside(r, m, f.root, f.root + RootLength(f))
      && Bytes(r, f.root, 4) == (if f.wide then XSDT else RSDT)
      && Load(r, f.root + 4, 4) == RootLength(f)
      && forall i :: 0 <= i < |f.tables| ==> EntryAt(r, f.root, Size(f), i) == f.tables[i].addr
  {
    hide Load, Store, BuildEntries, StoreBytes, Bytes;
    var sig := if f.wide then XSDT else RSDT;
    var s := StoreBytes(m, f.root, sig);
    StoreBytesFrames(m, f.root, sig);
    StoreBytesReads(m, f.root, sig);
    Pow256Of8();
    var l := Store(s, f.root + 4, 4, RootLength(f));
    StoreFrames(s, f.root + 4, 4, RootLength(f));
    LoadStore(s, f.root + 4, 4, RootLength(f));
    var r := BuildEntries(l, f.root + 36, Size(f), f.tables);
    EntriesFrame(l, f.root + 36, Size(f), f.tables);
    forall i | 0 <= i < |f.tables| ensures EntryAt(r, f.root, Size(f), i) == f.tables[i].addr {
      EntriesRead(l, f.root + 36, Size(f), f.tables, i);
    }
    SameBytesRead(l, s, f.root, 4);
    SameBytesRead(r, l, f.root, 4);
    SameBytesRead(r, l, f.root + 4, 4);
  }

  lemma RsdpRead(m: Mem, f: Firmware)
    requires Buildable(f)
    ensures var r := BuildRsdp(m, f);
      && SameOutside(r, m, f.rsdp, f.rsdp + 36)
      && IsRsdp(r, f.rsdp) && UsesXsdt(r, f.rsdp) == f.wide
      && RootTable(r, f.rsdp) == if f.root < 0x8000_0000 then f.root else 0
  {
    hide Load, Store, StoreBytes, Bytes;
    var s := StoreBytes(m, f.rsdp, RSDP_SIGNATURE);
    StoreBytesFrames(m, f.rsdp, RSDP_SIGNATURE);
    StoreBytesReads(m, f.rsdp, RSDP_SIGNATURE);
    Pow256Of8();
    var v := s[f.rsdp + 15 := f.revision];
    SameBytesRead(v, s, f.rsdp, 8);
    var at, n := f.rsdp + (if f.wide then 24 else 16), Size(f);
    StoreFrames(v, at, n, f.root);
    LoadStore(v, at, n, f.root);
    var w := Store(v, at, n, f.root);
    StoreFrames(w, f.rsdp + 24, 8, 0);
    LoadStore(w, f.rsdp + 24, 8, 0);
    var z := Store(w, f.rsdp + 24, 8, 0);
    SameBytesRead(w, v, f.rsdp, 8);
    SameBytesRead(z, w, f.rsdp, 8);
    SameBytesRead(z, w, f.rsdp + 16, 4);
    assert BuildRsdp(m, f) == if f.wide || f.revision < 2 then w else z;
    assert Load8(w, f.rsdp + 15) == Load8(z, f.rsdp + 15) == Load8(v, f.rsdp + 15) == f.revision;
  }

  // ---------------------------------------------------------------- the round trip

  function Addrs(ts: seq<Table>): seq<nat> {
    seq(|ts|, i requires 0 <= i < |ts| => ts[i].addr)
  }

  /** The EBDA begins at the real-mode segment that the BIOS data area holds at 0x40E. */
  lemma EbdaIsSegment(m: Mem, segment: U16)
    ensures EbdaStart(Store(m, 0x40E, 2, segment)) == 0x10 * segment
  {
    hide Load, Store;
    assert Pow256(2) == 0x1_0000;
    LoadStore(m, 0x40E, 2, segment);
  }

  lemma Found(m: Mem, f: Firmware)
    requires NoEarlierMatch(m, f.rsdp) && IsRsdp(m, f.rsdp)
    ensures FindRsdp(m) == Some(f.rsdp)
  {
    hide IsRsdp;
    var e := EbdaStart(m);
    ScanIsFirst(m, e, e + 1024);
    ScanIsFirst(m, 0xE0000, 0x100000);
  }

  /** Discovery finds the builder's RSDP and records, in order, the first sixteen tables below 2 GiB, unless the root lies above. */
  lemma DiscoveryReadsBuilder(m: Mem, f: Firmware)
    requires Buildable(f) && NoEarlierMatch(Build(m, f), f.rsdp)
    ensures Parsed(Build(m, f)) == if f.root < 0x8000_0000 then Some(Take16(OnlyMapped(Addrs(f.tables)))) else None
  {
    hide Load, Bytes, BuildRoot, BuildRsdp, BuildTables, EntryAt, FindRsdp, RootTable;
    var t := BuildTables(m, f.tables);
    var r := BuildRoot(t, f);
    var b := Build(m, f);
    RootRead(t, f);
    RsdpRead(r, f);
    Found(b, f);
    SameBytesRead(b, r, f.root, 4);
    SameBytesRead(b, r, f.root + 4, 4);
    EntriesSurvive(r, b, f);
    CountIs(b, f);
    RecordIs(b, f.root, Size(f), Addrs(f.tables));
  }

  lemma EntriesSurvive(r: Mem, b: Mem, f: Firmware)
    requires Buildable(f) && SameOutside(b, r, f.rsdp, f.rsdp + 36)
    requires forall i :: 0 <= i < |f.tables| ==> EntryAt(r, f.root, Size(f), i) == f.tables[i].addr
    ensures forall i :: 0 <= i < |f.tables| ==> EntryAt(b, f.root, Size(f), i) == Addrs(f.tables)[i]
  {
    hide Load, Bytes;
    forall i | 0 <= i < |f.tables| ensures EntryAt(b, f.root, Size(f), i) == Addrs(f.tables)[i] {
      Monotone(Size(f), i + 1, |f.tables|);
      SameBytesRead(b, r, f.root + 36 + Size(f) * i, Size(f));
    }
  }

  lemma CountIs(b: Mem, f: Firmware)
    requires Buildable(f) && Load(b, f.root + 4, 4) == RootLength(f)
    ensures EntryCount(b, f.root, Size(f)) == |f.tables|
  {
    hide Load;
    var rest := Size(f) * |f.tables| + f.slack;
    assert rest % WRAP == rest;
    if f.wide {
      Quotient8(rest, |f.tables|, f.slack);
    } else {
      Quotient4(rest, |f.tables|, f.slack);
    }
  }

  lemma Quotient8(v: int, q: int, r: int)
    requires v == 8 * q + r && 0 <= r < 8
    ensures v / 8 == q
  {
  }

  lemma Quotient4(v: int, q: int, r: int)
    requires v == 4 * q + r && 0 <= r < 4
    ensures v / 4 == q
  {
  }

  /** A length below that of the header wraps around in 64 bits, and its quotient is cut to 32. */
  lemma ShortRoot(m: Mem, sdt: nat, size: nat)
    requires size in {4, 8} && Load(m, sdt + 4, 4) < 36
    ensures EntryCount(m, sdt, size) == 0x1_0000_0000 - (36 - Load(m, sdt + 4, 4) + size - 1) / size
  {
    hide Load;
    var d := 36 - Load(m, sdt + 4, 4);
    Negated(d);
    if size == 8 {
      Short8(d, (d + 7) / 8);
    } else {
      Short4(d, (d + 3) / 4);
    }
  }

  lemma Negated(d: int)
    requires 0 < d < WRAP
    ensures -d % WRAP == WRAP - d
  {
  }

  lemma Short8(d: int, k: int)
    requires 0 < d <= 36 && 8 * k - 8 < d <= 8 * k
    ensures (WRAP - d) / 8 % 0x1_0000_0000 == 0x1_0000_0000 - k
  {
    Quotient8(WRAP - d, WRAP / 8 - k, 8 * k - d);
    Low32(WRAP / 8 - k, 0x1FFF_FFFF, 0x1_0000_0000 - k);
  }

  lemma Short4(d: int, k: int)
    requires 0 < d <= 36 && 4 * k - 4 < d <= 4 * k
    ensures (WRAP - d) / 4 % 0x1_0000_0000 == 0x1_0000_0000 - k
  {
    Quotient4(WRAP - d, WRAP / 4 - k, 4 * k - d);
    Low32(WRAP / 4 - k, 0x3FFF_FFFF, 0x1_0000_0000 - k);
  }

  lemma Low32(v: int, q: int, r: int)
    requires v == 0x1_0000_0000 * q + r && 0 <= r < 0x1_0000_0000
    ensures v % 0x1_0000_0000 == r
  {
  }

  /** The signatures and PM1 control fields the builder gave its tables are still there in the end. */
  lemma TablesReadBack(m: Mem, f: Firmware)
    requires Buildable(f)
    ensures forall i :: 0 <= i < |f.tables| ==> Holds(Build(m, f), f.tables[i])
  {
    hide Holds, BuildRoot, BuildRsdp, BuildTables, Bytes, IsRsdp, RootTable, UsesXsdt, Load, EntryAt;
    var t := BuildTables(m, f.tables);
    var r := BuildRoot(t, f);
    TablesRead(m, f.tables);
    RootRead(t, f);
    RsdpRead(r, f);
    forall i | 0 <= i < |f.tables| ensures Holds(Build(m, f), f.tables[i]) {
      HoldsElsewhere(t, r, f.root, RootLength(f), f.tables[i]);
      HoldsElsewhere(r, Build(m, f), f.rsdp, 36, f.tables[i]);
    }
  }

  // ---------------------------------------------------------------- lookups

  /** The tables acpi_init keeps: the first sixteen whose address is mapped. */
  function Kept(ts: seq<Table>): seq<Table> {
    if ts == [] then []
    else
      var before := Kept(ts[..|ts| - 1]);
      if |before| < 16 && Mapped(ts[|ts| - 1].addr) then before + [ts[|ts| - 1]] else before
  }

  lemma {:induction false} KeptAddresses(ts: seq<Table>)
    ensures Addrs(Kept(ts)) == Take16(OnlyMapped(Addrs(ts)))
    ensures forall t :: t in Kept(ts) ==> t in ts
  {
    if ts != [] {
      var b := ts[..|ts| - 1];
      KeptAddresses(b);
      assert Addrs(ts)[..|ts| - 1] == Addrs(b);
      assert forall t :: t in b ==> t in ts;
    }
  }

  /** The kept tables are those at addresses from 1 up to 2 GiB, as far as sixteen go. */
  lemma {:induction false} KeptIs(ts: seq<Table>)
    ensures |Kept(ts)| <= 16 && forall t :: t in Kept(ts) ==> 0 < t.addr < 0x8000_0000
    ensures |Kept(ts)| < 16 ==> forall t :: t in ts && 0 < t.addr < 0x8000_0000 ==> t in Kept(ts)
  {
    if ts != [] {
      KeptIs(ts[..|ts| - 1]);
      assert forall t :: t in ts ==> t in ts[..|ts| - 1] || t == ts[|ts| - 1];
    }
  }

  function FirstTable(ts: seq<Table>, sig: seq<Byte>): Option<nat> {
    if ts == [] then None else if ts[0].sig == sig then Some(ts[0].addr) else FirstTable(ts[1..], sig)
  }

  lemma {:induction false} FirstWithIs(m: Mem, ts: seq<Table>, sig: seq<Byte>)
    requires forall t :: t in ts ==> Bytes(m, t.addr, 4) == t.sig
    ensures FirstWith(m, Addrs(ts), sig) == FirstTable(ts, sig)
  {
    hide Bytes;
    if ts != [] {
      FirstWithIs(m, ts[1..], sig);
      assert ts[0] in ts;
      assert Addrs(ts)[1..] == Addrs(ts[1..]);
    }
  }

  function LastTable(ts: seq<Table>, sig: seq<Byte>): (r: Option<Table>)
    ensures r.Some? ==> r.value in ts && r.value.sig == sig
  {
    if ts == [] then None
    else if ts[|ts| - 1].sig == sig then Some(ts[|ts| - 1])
    else LastTable(ts[..|ts| - 1], sig)
  }

  lemma {:induction false} LastWithIs(m: Mem, ts: seq<Table>, sig: seq<Byte>)
    requires forall t :: t in ts ==> Bytes(m, t.addr, 4) == t.sig
    ensures LastWith(m, Addrs(ts), sig) == match LastTable(ts, sig) case None => None case Some(t) => Some(t.addr)
  {
    hide Bytes;
    if ts != [] {
      var k := |ts| - 1;
      LastWithIs(m, ts[..k], sig);
      assert ts[k] in ts;
      assert Addrs(ts)[..k] == Addrs(ts[..k]);
    }
  }

  /** Each kept table holds what the builder put into it, and the kept addresses are those discovery records. */
  lemma KeptReadBack(m: Mem, f: Firmware)
    requires Buildable(f) && NoEarlierMatch(Build(m, f), f.rsdp)
    ensures Parsed(Build(m, f)) == if f.root < 0x8000_0000 then Some(Addrs(Kept(f.tables))) else None
    ensures forall t :: t in Kept(f.tables) ==> Holds(Build(m, f), t)
  {
    hide Build, Holds, Buildable, NoEarlierMatch, Parsed;
    DiscoveryReadsBuilder(m, f);
    KeptAddresses(f.tables);
    TablesReadBack(m, f);
  }

  /** Round trip: a lookup after discovery returns the first kept table of the firmware with that signature, or none. */
  lemma LookupReadsBuilder(m: Mem, f: Firmware, sig: seq<Byte>)
    requires Buildable(f) && NoEarlierMatch(Build(m, f), f.rsdp)
    ensures Parsed(Build(m, f)) == if f.root < 0x8000_0000 then Some(Addrs(Kept(f.tables))) else None
    ensures FirstWith(Build(m, f), Addrs(Kept(f.tables)), sig) == FirstTable(Kept(f.tables), sig)
  {
    hide Build, Bytes, Buildable, NoEarlierMatch, Parsed;
    KeptReadBack(m, f);
    FirstWithIs(Build(m, f), Kept(f.tables), sig);
  }

  /** Round trip to the power button: shutdown writes to the ports named by the last kept FADT of the firmware. */
  lemma PortsReadBuilder(m: Mem, f: Firmware)
    requires Buildable(f) && NoEarlierMatch(Build(m, f), f.rsdp)
    ensures Ports(Build(m, f)) == match if f.root < 0x8000_0000 then LastTable(Kept(f.tables), FACP) else None
      case None => (0x604, 0xB004)
      case Some(t) => (PortFor(t.pm1a, 0x604), PortFor(t.pm1b, 0xB004))
  {
    hide Build, Bytes, Buildable, NoEarlierMatch, Parsed, PortFor;
    KeptReadBack(m, f);
    LastWithIs(Build(m, f), Kept(f.tables), FACP);
  }
}
