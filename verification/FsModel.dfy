/** The file table as sixteen slots, and the partial map from names to contents it refines. */
module FsModel {
  import opened CTypes

  type Text = seq<Char>

  datatype File = File(name: Text, data: Text)

  type Slots = s: seq<Option<File>> | |s| == 16 witness seq<Option<File>>(16, _ => None)

  /** copy_name keeps at most 31 characters. */
  function Truncate(name: Text): Text {
    if |name| <= 31 then name else name[..31]
  }

  /** The stored name is the longest prefix of the given one that has at most 31 characters. */
  lemma TruncateIs(name: Text)
    ensures Truncate(name) <= name && |Truncate(name)| == Min(|name|, 31)
    ensures Truncate(name) == name <==> |name| <= 31
  {
  }

  predicate Named(o: Option<File>, name: Text) {
    o.Some? && o.value.name == name
  }

  /** The lowest slot at or above i that is free, or 16. */
  function FirstFree(s: Slots, i: nat): (r: nat)
    requires i <= 16
    ensures i <= r <= 16 && (r < 16 ==> s[r].None?)
    ensures forall k :: i <= k < r ==> s[k].Some?
    decreases 16 - i
  {
    if i == 16 || s[i].None? then i else FirstFree(s, i + 1)
  }

  /** The lowest slot at or above i that holds the name, or 16. */
  function FirstNamed(s: Slots, name: Text, i: nat): (r: nat)
    requires i <= 16
    ensures i <= r <= 16 && (r < 16 ==> Named(s[r], name))
    ensures forall k :: i <= k < r ==> !Named(s[k], name)
    decreases 16 - i
  {
    if i == 16 || Named(s[i], name) then i else FirstNamed(s, name, i + 1)
  }

  /** The highest slot below i that holds the name, or -1. */
  function LastNamed(s: Slots, name: Text, i: nat): (r: int)
    requires i <= 16
    ensures -1 <= r < i && (r >= 0 ==> Named(s[r], name))
  {
    if i == 0 then -1 else if Named(s[i - 1], name) then i - 1 else LastNamed(s, name, i - 1)
  }

  lemma SearchEnds(s: Slots, name: Text)
    ensures FirstNamed(s, name, 16) == 16 && LastNamed(s, name, 0) == -1
  {
  }

  lemma SearchStep(s: Slots, name: Text, i: nat)
    requires i < 16
    ensures FirstNamed(s, name, i) == if Named(s[i], name) then i else FirstNamed(s, name, i + 1)
    ensures LastNamed(s, name, i + 1) == if Named(s[i], name) then i else LastNamed(s, name, i)
  {
  }

  function Create(s: Slots, name: Text): Slots {
    var i := FirstFree(s, 0);
    if i == 16 then s else s[i := Some(File(Truncate(name), []))]
  }

  function Delete(s: Slots, name: Text): Slots {
    var i := FirstNamed(s, name, 0);
    if i == 16 then s else s[i := None]
  }

  predicate Renames(s: Slots, oldName: Text, newName: Text) {
    FirstNamed(s, newName, 0) == 16 && LastNamed(s, oldName, 16) >= 0
  }

  function Rename(s: Slots, oldName: Text, newName: Text): Slots {
    if Renames(s, oldName, newName) then
      var i := LastNamed(s, oldName, 16);
      s[i := Some(s[i].value.(name := Truncate(newName)))]
    else s
  }

  function Write(s: Slots, h: int, data: Text): Slots {
    if 0 <= h < 16 && s[h].Some? then
      s[h := Some(s[h].value.(data := if |data| <= 4096 then data else data[..4096]))]
    else s
  }

  /** The live slots from i on, in slot order. */
  function Live(s: Slots, i: nat): seq<nat>
    requires i <= 16
    decreases 16 - i
  {
    if i == 16 then [] else (if s[i].Some? then [i] else []) + Live(s, i + 1)
  }

  // ---------------------------------------------------------------- the abstract map

  /** Names are short and have no terminator in them; contents fit a slot. */
  ghost predicate Sound(s: Slots) {
    forall i :: 0 <= i < 16 && s[i].Some? ==>
      |s[i].value.name| <= 31 && NUL !in s[i].value.name && |s[i].value.data| <= 4096
  }

  ghost predicate Unique(s: Slots) {
    forall i, j :: 0 <= i < j < 16 && s[i].Some? && s[j].Some? ==> s[i].value.name != s[j].value.name
  }

  ghost predicate Fs(s: Slots) {
    Sound(s) && Unique(s)
  }

  ghost function Names(s: Slots): set<Text> {
    set i | 0 <= i < 16 && s[i].Some? :: s[i].value.name
  }

  /** The file system as a user sees it. */
  ghost function Files(s: Slots): (m: map<Text, Text>)
    ensures m.Keys == Names(s)
  {
    map name | name in Names(s) :: Contents(s, name)
  }

  ghost function Contents(s: Slots, name: Text): Text {
    var i := FirstNamed(s, name, 0);
    if i < 16 then s[i].value.data else []
  }

  lemma FirstNamedOf(s: Slots, name: Text, i: nat)
    requires Unique(s) && i < 16 && Named(s[i], name)
    ensures FirstNamed(s, name, 0) == i && LastNamed(s, name, 16) == i
    ensures name in Names(s) && Files(s)[name] == s[i].value.data
  {
    LastNamedOf(s, name, i, 16);
  }

  lemma {:induction false} LastNamedOf(s: Slots, name: Text, i: nat, n: nat)
    requires Unique(s) && i < n <= 16 && Named(s[i], name)
    ensures LastNamed(s, name, n) == i
  {
    if n - 1 != i {
      LastNamedOf(s, name, i, n - 1);
    }
  }

  lemma {:induction false} LastNamedNone(s: Slots, name: Text, n: nat)
    requires n <= 16 && LastNamed(s, name, n) < 0
    ensures forall k :: 0 <= k < n ==> !Named(s[k], name)
  {
    if n > 0 {
      LastNamedNone(s, name, n - 1);
    }
  }

  /** A name is in the map exactly if open, delete and rename find a slot for it. */
  lemma NameIsFound(s: Slots, name: Text)
    ensures name in Names(s) <==> FirstNamed(s, name, 0) < 16
    ensures name in Names(s) <==> LastNamed(s, name, 16) >= 0
  {
    hide FirstNamed, LastNamed;
    var i, j := FirstNamed(s, name, 0), LastNamed(s, name, 16);
    if i < 16 {
      assert s[i].value.name in Names(s);
    }
    if j < 0 {
      LastNamedNone(s, name, 16);
      assert name !in Names(s);
    } else {
      assert s[j].value.name in Names(s);
    }
  }

  // ---------------------------------------------------------------- each operation against the map

  /** Two tables with the same live slots by name show the same map. */
  lemma FilesAre(s: Slots, m: map<Text, Text>)
    requires Unique(s)
    requires forall i :: 0 <= i < 16 && s[i].Some? ==> s[i].value.name in m && m[s[i].value.name] == s[i].value.data
    requires forall name :: name in m ==> FirstNamed(s, name, 0) < 16
    ensures Files(s) == m
  {
    forall name ensures name in m <==> name in Names(s) {
      NameIsFound(s, name);
    }
    forall name | name in m ensures Files(s)[name] == m[name] {
      FirstNamedOf(s, name, FirstNamed(s, name, 0));
    }
  }

  lemma FilesHold(s: Slots, i: nat)
    requires Unique(s) && i < 16 && s[i].Some?
    ensures s[i].value.name in Files(s) && Files(s)[s[i].value.name] == s[i].value.data
  {
    FirstNamedOf(s, s[i].value.name, i);
  }

  lemma FilesFound(s: Slots, name: Text)
    requires name in Files(s)
    ensures FirstNamed(s, name, 0) < 16
  {
    NameIsFound(s, name);
  }

  lemma NamesAreKeys(s: Slots, name: Text)
    ensures name in Files(s) <==> FirstNamed(s, name, 0) < 16
    ensures name in Files(s) <==> LastNamed(s, name, 16) >= 0
  {
    NameIsFound(s, name);
  }

  /** With a free slot, create adds an empty file under the name exactly if the name fits and is new. */
  lemma CreateRefinesIff(s: Slots, name: Text)
    requires Fs(s) && FirstFree(s, 0) < 16
    ensures var d := Create(s, name);
      Unique(d) && Files(d) == Files(s)[name := []] <==> |name| <= 31 && name !in Files(s)
  {
    hide Files, Contents, Names, FirstNamed, LastNamed, FirstFree;
    var d, i, k := Create(s, name), FirstFree(s, 0), FirstNamed(s, name, 0);
    NamesAreKeys(s, name);
    NamesAreKeys(d, name);
    assert forall j :: 0 <= j < 16 && d[j].Some? ==> |d[j].value.name| <= 31;
    if |name| <= 31 {
      if name !in Files(s) {
        CreateRefines(s, name);
      } else {
        assert d[k] == s[k] && Named(d[i], name);
      }
    }
  }

  lemma CreateRefines(s: Slots, name: Text)
    requires Fs(s) && FirstFree(s, 0) < 16 && |name| <= 31 && name !in Files(s)
    ensures Unique(Create(s, name)) && Files(Create(s, name)) == Files(s)[name := []]
  {
    hide Files, Contents, Names, FirstNamed, LastNamed, FirstFree;
    var d, i := Create(s, name), FirstFree(s, 0);
    forall k | 0 <= k < 16 && s[k].Some? ensures s[k].value.name in Files(s) && Files(s)[s[k].value.name] == s[k].value.data {
      FilesHold(s, k);
    }
    assert Unique(d);
    var m := Files(s)[name := []];
    forall n | n in m ensures FirstNamed(d, n, 0) < 16 {
      if n == name {
        FirstNamedOf(d, n, i);
      } else {
        FilesFound(s, n);
        FirstNamedOf(d, n, FirstNamed(s, n, 0));
      }
    }
    FilesAre(d, m);
  }

  /** Creating a name twice gives twins, and a file created under or renamed to 32 characters is found under 31 only. */
  lemma NameLimits(s: Slots)
    requires s == seq(16, _ => None)
    ensures !Unique(Create(Create(s, [97]), [97]))
    ensures var long: Text := seq(32, _ => 97);
      var d := Create(s, long);
      FirstNamed(d, long, 0) == 16 && FirstNamed(d, long[..31], 0) == 0
    ensures var long: Text := seq(32, _ => 97);
      var d := Rename(Create(s, [98]), [98], long);
      Renames(Create(s, [98]), [98], long) && FirstNamed(d, long, 0) == 16 && FirstNamed(d, long[..31], 0) == 0
  {
    RenamedTooLong(s);
    var t := Create(s, [97]);
    assert t[0] == Some(File([97], []));
    assert FirstFree(t, 0) == 1;
    var d := Create(t, [97]);
    assert Named(d[0], [97]) && Named(d[1], [97]);
  }

  lemma RenamedTooLong(s: Slots)
    requires s == seq(16, _ => None)
    ensures var long: Text := seq(32, _ => 97);
      var d := Rename(Create(s, [98]), [98], long);
      Renames(Create(s, [98]), [98], long) && FirstNamed(d, long, 0) == 16 && FirstNamed(d, long[..31], 0) == 0
  {
    var long: Text := seq(32, _ => 97);
    var t := Create(s, [98]);
    assert t[0] == Some(File([98], [])) && forall i :: 1 <= i < 16 ==> t[i] == None;
    FirstNamedOf(t, [98], 0);
    var d := Rename(t, [98], long);
    assert d[0] == Some(File(long[..31], []));
  }

  lemma DeleteRefines(s: Slots, name: Text)
    requires Fs(s)
    ensures Fs(Delete(s, name)) && Files(Delete(s, name)) == Files(s) - {name}
    ensures FirstNamed(s, name, 0) < 16 <==> name in Files(s)
  {
    hide Files, Contents, Names, FirstNamed, LastNamed, FirstFree;
    var d, i := Delete(s, name), FirstNamed(s, name, 0);
    NamesAreKeys(s, name);
    var m := Files(s) - {name};
    forall k | 0 <= k < 16 && d[k].Some? ensures d[k].value.name in m && m[d[k].value.name] == d[k].value.data {
      FilesHold(s, k);
      assert d[k] == s[k];
    }
    forall n | n in m ensures FirstNamed(d, n, 0) < 16 {
      FilesFound(s, n);
      FirstNamedOf(d, n, FirstNamed(s, n, 0));
    }
    FilesAre(d, m);
  }

  /** rename succeeds exactly if the old name exists and the new one does not; renaming to itself fails. */
  lemma RenameSucceedsIff(s: Slots, oldName: Text, newName: Text)
    ensures Renames(s, oldName, newName) <==> oldName in Files(s) && newName !in Files(s)
    ensures !Renames(s, oldName, newName) ==> Rename(s, oldName, newName) == s
  {
    NamesAreKeys(s, oldName);
    NamesAreKeys(s, newName);
  }

  function MoveKey(m: map<Text, Text>, oldName: Text, newName: Text): map<Text, Text>
    requires oldName in m
  {
    (m - {oldName})[newName := m[oldName]]
  }

  /** A successful rename moves one key and touches no contents, exactly if the new name fits. */
  lemma RenameRefinesIff(s: Slots, oldName: Text, newName: Text)
    requires Fs(s) && oldName in Files(s) && newName !in Files(s)
    ensures var d := Rename(s, oldName, newName);
      Unique(d) && Files(d) == MoveKey(Files(s), oldName, newName) <==> |newName| <= 31
  {
    hide Files, Contents, Names, FirstNamed, LastNamed, FirstFree;
    RenameSucceedsIff(s, oldName, newName);
    var d := Rename(s, oldName, newName);
    NamesAreKeys(d, newName);
    assert forall j :: 0 <= j < 16 && d[j].Some? ==> |d[j].value.name| <= 31;
    if |newName| <= 31 {
      RenameRefines(s, oldName, newName);
    }
  }

  lemma RenameRefines(s: Slots, oldName: Text, newName: Text)
    requires Fs(s) && oldName in Files(s) && newName !in Files(s) && |newName| <= 31
    ensures Unique(Rename(s, oldName, newName)) && Files(Rename(s, oldName, newName)) == MoveKey(Files(s), oldName, newName)
  {
    hide Files, Contents, Names, FirstNamed, LastNamed, FirstFree;
    RenameSucceedsIff(s, oldName, newName);
    var d, i := Rename(s, oldName, newName), LastNamed(s, oldName, 16);
    forall k | 0 <= k < 16 && s[k].Some? ensures s[k].value.name in Files(s) && Files(s)[s[k].value.name] == s[k].value.data {
      FilesHold(s, k);
    }
    assert Unique(d);
    var m := MoveKey(Files(s), oldName, newName);
    forall n | n in m ensures FirstNamed(d, n, 0) < 16 {
      if n == newName {
        FirstNamedOf(d, n, i);
      } else {
        FilesFound(s, n);
        FirstNamedOf(d, n, FirstNamed(s, n, 0));
      }
    }
    FilesAre(d, m);
  }

  /** A write through a live handle replaces that file's contents, cut to 4096 bytes, and nothing else. */
  lemma WriteRefines(s: Slots, h: nat, data: Text)
    requires Fs(s) && h < 16 && s[h].Some?
    ensures var d := Write(s, h, data);
      && Fs(d)
      && Files(d) == Files(s)[s[h].value.name := if |data| <= 4096 then data else data[..4096]]
  {
    hide Files, Contents, Names, FirstNamed, LastNamed, FirstFree;
    var d, name := Write(s, h, data), s[h].value.name;
    var m := Files(s)[name := d[h].value.data];
    FilesHold(s, h);
    forall k | 0 <= k < 16 && d[k].Some? ensures d[k].value.name in m && m[d[k].value.name] == d[k].value.data {
      FilesHold(s, k);
    }
    forall n | n in m ensures FirstNamed(d, n, 0) < 16 {
      FilesFound(s, n);
      FirstNamedOf(d, n, FirstNamed(s, n, 0));
    }
    FilesAre(d, m);
  }

  // ---------------------------------------------------------------- capacity

  ghost function NamesBelow(s: Slots, n: nat): set<Text>
    requires n <= 16
  {
    set i | 0 <= i < n && s[i].Some? :: s[i].value.name
  }

  function LiveBelow(s: Slots, n: nat): nat
    requires n <= 16
  {
    if n == 0 then 0 else LiveBelow(s, n - 1) + (if s[n - 1].Some? then 1 else 0)
  }

  lemma {:induction false} CountNames(s: Slots, n: nat)
    requires Unique(s) && n <= 16
    ensures |NamesBelow(s, n)| == LiveBelow(s, n) <= n
    ensures LiveBelow(s, n) == n <==> forall i :: 0 <= i < n ==> s[i].Some?
  {
    hide NamesBelow;
    NamesStep(s, n);
    if n > 0 {
      CountNames(s, n - 1);
    }
  }

  lemma NamesStep(s: Slots, n: nat)
    requires Unique(s) && n <= 16
    ensures n == 0 ==> NamesBelow(s, n) == {}
    ensures n > 0 && s[n - 1].None? ==> NamesBelow(s, n) == NamesBelow(s, n - 1)
    ensures n > 0 && s[n - 1].Some? ==>
      && NamesBelow(s, n) == NamesBelow(s, n - 1) + {s[n - 1].value.name}
      && s[n - 1].value.name !in NamesBelow(s, n - 1)
  {
  }

  /** At most sixteen files; create fails exactly when there are sixteen. */
  lemma CreateFailsIff(s: Slots)
    requires Unique(s)
    ensures |Files(s)| <= 16
    ensures FirstFree(s, 0) == 16 <==> |Files(s)| == 16
  {
    CountNames(s, 16);
    assert NamesBelow(s, 16) == Names(s);
    assert |Files(s)| == |Files(s).Keys|;
  }

  lemma LiveEnd(s: Slots)
    ensures Live(s, 16) == []
  {
  }

  lemma LiveStep(s: Slots, i: nat)
    requires i < 16
    ensures Live(s, i) == (if s[i].Some? then [i] else []) + Live(s, i + 1)
    ensures i + 1 == 16 ==> Live(s, i + 1) == []
  {
  }

  /** Each live slot is listed once, in slot order. */
  lemma {:induction false} LiveIsOrdered(s: Slots, i: nat)
    requires i <= 16
    ensures forall k :: k in Live(s, i) <==> i <= k < 16 && s[k].Some?
    ensures forall a, b :: 0 <= a < b < |Live(s, i)| ==> Live(s, i)[a] < Live(s, i)[b]
    decreases 16 - i
  {
    hide Live;
    LiveEnd(s);
    if i < 16 {
      LiveIsOrdered(s, i + 1);
      LiveStep(s, i);
      var rest, all := Live(s, i + 1), Live(s, i);
      if s[i].Some? {
        assert all[0] == i && all[1..] == rest;
        forall a, b | 0 <= a < b < |all| ensures all[a] < all[b] {
          assert all[b] == rest[b - 1] && rest[b - 1] in rest;
          if a > 0 {
            assert all[a] == rest[a - 1];
          }
        }
      } else {
        assert all == rest;
      }
    }
  }

  // ---------------------------------------------------------------- the abstract machine

  /** A file system without slots: contents by name, and the name each handle is bound to. */
  datatype Disk = Disk(files: map<Text, Text>, handles: map<nat, Text>)

  datatype Op =
    | DoCreate(name: Text)
    | DoDelete(name: Text)
    | DoRename(oldName: Text, newName: Text)
    | DoWrite(h: int, data: Text)

  function Cut(data: Text): Text {
    if |data| <= 4096 then data else data[..4096]
  }

  /** The lowest handle from h on that is bound to nothing, or 16. */
  function Unbound(handles: map<nat, Text>, h: nat): nat
    requires h <= 16
    decreases 16 - h
  {
    if h == 16 || h !in handles then h else Unbound(handles, h + 1)
  }

  /** Create binds a handle, rename moves a name, delete unbinds, write goes through a handle. */
  function OnDisk(d: Disk, op: Op): Disk {
    match op
    case DoCreate(name) =>
      if |d.files| < 16 then Disk(d.files[name := []], d.handles[Unbound(d.handles, 0) := name]) else d
    case DoDelete(name) =>
      Disk(d.files - {name}, map h | h in d.handles && d.handles[h] != name :: d.handles[h])
    case DoRename(oldName, newName) =>
      if oldName in d.files && newName !in d.files then
        Disk(MoveKey(d.files, oldName, newName),
             map h | h in d.handles :: if d.handles[h] == oldName then newName else d.handles[h])
      else d
    case DoWrite(h, data) =>
      if h >= 0 && h in d.handles then d.(files := d.files[d.handles[h] := Cut(data)]) else d
  }

  /** What the call returns: a handle, a count, or -1. */
  function Reply(d: Disk, op: Op): int {
    match op
    case DoCreate(_) => if |d.files| < 16 then Unbound(d.handles, 0) else -1
    case DoDelete(name) => if name in d.files then 0 else -1
    case DoRename(oldName, newName) => if oldName in d.files && newName !in d.files then 0 else -1
    case DoWrite(h, data) => if h >= 0 && h in d.handles then |Cut(data)| else -1
  }

  function RunOnDisk(d: Disk, ops: seq<Op>): Disk {
    if ops == [] then d else OnDisk(RunOnDisk(d, ops[..|ops| - 1]), ops[|ops| - 1])
  }

  /** Created and renamed-to names fit, contain no terminator, and are unused when created. */
  predicate Polite(d: Disk, op: Op) {
    match op
    case DoCreate(name) => |name| <= 31 && NUL !in name && name !in d.files
    case DoRename(_, newName) => |newName| <= 31 && NUL !in newName
    case _ => true
  }

  ghost predicate PoliteRun(d: Disk, ops: seq<Op>) {
    forall i :: 0 <= i < |ops| ==> Polite(RunOnDisk(d, ops[..i]), ops[i])
  }

  // ---------------------------------------------------------------- the table against the machine

  function Apply(s: Slots, op: Op): Slots {
    match op
    case DoCreate(name) => Create(s, name)
    case DoDelete(name) => Delete(s, name)
    case DoRename(oldName, newName) => Rename(s, oldName, newName)
    case DoWrite(h, data) => Write(s, h, data)
  }

  /** What the functions of fs.c return. */
  function Returned(s: Slots, op: Op): int {
    match op
    case DoCreate(_) => if FirstFree(s, 0) < 16 then FirstFree(s, 0) else -1
    case DoDelete(name) => if FirstNamed(s, name, 0) < 16 then 0 else -1
    case DoRename(oldName, newName) => if Renames(s, oldName, newName) then 0 else -1
    case DoWrite(h, data) => if 0 <= h < 16 && s[h].Some? then Min(|data|, 4096) else -1
  }

  function Run(s: Slots, ops: seq<Op>): Slots {
    if ops == [] then s else Apply(Run(s, ops[..|ops| - 1]), ops[|ops| - 1])
  }

  ghost function Handles(s: Slots): map<nat, Text> {
    map h: nat | 0 <= h < 16 && s[h].Some? :: s[h].value.name
  }

  ghost function DiskOf(s: Slots): Disk {
    Disk(Files(s), Handles(s))
  }

  lemma {:induction false} UnboundIsFree(s: Slots, h: nat)
    requires h <= 16
    ensures Unbound(Handles(s), h) == FirstFree(s, h)
    decreases 16 - h
  {
    if h < 16 {
      UnboundIsFree(s, h + 1);
    }
  }

  lemma CreateOnDisk(s: Slots, name: Text)
    requires Fs(s) && Polite(DiskOf(s), DoCreate(name))
    ensures Fs(Create(s, name)) && DiskOf(Create(s, name)) == OnDisk(DiskOf(s), DoCreate(name))
    ensures Returned(s, DoCreate(name)) == Reply(DiskOf(s), DoCreate(name))
  {
    hide Files, Contents, Names, FirstFree, Unbound;
    CreateFailsIff(s);
    UnboundIsFree(s, 0);
    if FirstFree(s, 0) < 16 {
      CreateRefines(s, name);
      var i := FirstFree(s, 0);
      assert Handles(Create(s, name)) == Handles(s)[i := name];
    }
  }

  lemma DeleteOnDisk(s: Slots, name: Text)
    requires Fs(s)
    ensures Fs(Delete(s, name)) && DiskOf(Delete(s, name)) == OnDisk(DiskOf(s), DoDelete(name))
    ensures Returned(s, DoDelete(name)) == Reply(DiskOf(s), DoDelete(name))
  {
    hide Files, Contents, Names, FirstNamed;
    DeleteRefines(s, name);
    var i, hs := FirstNamed(s, name, 0), Handles(s);
    assert Handles(Delete(s, name)) == map h | h in hs && hs[h] != name :: hs[h];
  }

  lemma RenameOnDisk(s: Slots, oldName: Text, newName: Text)
    requires Fs(s) && Polite(DiskOf(s), DoRename(oldName, newName))
    ensures Fs(Rename(s, oldName, newName))
    ensures DiskOf(Rename(s, oldName, newName)) == OnDisk(DiskOf(s), DoRename(oldName, newName))
    ensures Returned(s, DoRename(oldName, newName)) == Reply(DiskOf(s), DoRename(oldName, newName))
  {
    hide Files, Contents, Names, FirstNamed, LastNamed;
    RenameSucceedsIff(s, oldName, newName);
    if Renames(s, oldName, newName) {
      RenameRefines(s, oldName, newName);
      var i, hs := LastNamed(s, oldName, 16), Handles(s);
      assert Handles(Rename(s, oldName, newName)) == map h | h in hs :: if hs[h] == oldName then newName else hs[h];
    }
  }

  lemma WriteOnDisk(s: Slots, h: int, data: Text)
    requires Fs(s)
    ensures Fs(Write(s, h, data)) && DiskOf(Write(s, h, data)) == OnDisk(DiskOf(s), DoWrite(h, data))
    ensures Returned(s, DoWrite(h, data)) == Reply(DiskOf(s), DoWrite(h, data))
  {
    hide Files, Contents, Names;
    if 0 <= h < 16 && s[h].Some? {
      WriteRefines(s, h, data);
    }
    assert Handles(Write(s, h, data)) == Handles(s);
  }

  /** One polite call: same return value, and the abstract machine's next state. */
  lemma ApplyRefines(s: Slots, op: Op)
    requires Fs(s) && Polite(DiskOf(s), op)
    ensures Fs(Apply(s, op)) && DiskOf(Apply(s, op)) == OnDisk(DiskOf(s), op)
    ensures Returned(s, op) == Reply(DiskOf(s), op)
  {
    hide DiskOf, OnDisk, Reply, Returned, Create, Delete, Rename, Write, Polite, Fs;
    match op
    case DoCreate(name) => CreateOnDisk(s, name);
    case DoDelete(name) => DeleteOnDisk(s, name);
    case DoRename(oldName, newName) => RenameOnDisk(s, oldName, newName);
    case DoWrite(h, data) => WriteOnDisk(s, h, data);
  }

  /** Open returns the handle bound to the name, read and list see the machine's contents and bound handles. */
  lemma LookupsAgree(s: Slots, name: Text, h: nat)
    requires Fs(s) && h < 16
    ensures var d := DiskOf(s);
      && (FirstNamed(s, name, 0) == h <==> h in d.handles && d.handles[h] == name)
      && (FirstNamed(s, name, 0) == 16 <==> name !in d.files)
      && (s[h].Some? ==> h in d.handles && d.handles[h] in d.files && s[h].value.data == d.files[d.handles[h]])
      && (h in Live(s, 0) <==> h in d.handles)
  {
    hide FirstNamed, LastNamed, Contents, Live;
    NamesAreKeys(s, name);
    LiveIsOrdered(s, 0);
    if s[h].Some? {
      FirstNamedOf(s, s[h].value.name, h);
    }
  }

  lemma PolitePrefix(d: Disk, ops: seq<Op>)
    requires PoliteRun(d, ops) && ops != []
    ensures PoliteRun(d, ops[..|ops| - 1]) && Polite(RunOnDisk(d, ops[..|ops| - 1]), ops[|ops| - 1])
  {
    hide Polite;
    var b := ops[..|ops| - 1];
    assert forall i :: 0 <= i < |b| ==> b[..i] == ops[..i];
  }

  /** Over every polite run the table is the abstract machine, which never asks the table anything. */
  lemma {:induction false} RunRefines(s: Slots, ops: seq<Op>)
    requires Fs(s) && PoliteRun(DiskOf(s), ops)
    ensures Fs(Run(s, ops)) && DiskOf(Run(s, ops)) == RunOnDisk(DiskOf(s), ops)
    ensures |RunOnDisk(DiskOf(s), ops).files| <= 16
  {
    hide Apply, OnDisk, Polite, Fs;
    if ops != [] {
      var b := ops[..|ops| - 1];
      PolitePrefix(DiskOf(s), ops);
      RunRefines(s, b);
      ApplyRefines(Run(s, b), ops[|ops| - 1]);
    }
    CapacityOf(Run(s, ops));
  }

  lemma CapacityOf(s: Slots)
    requires Fs(s)
    ensures |Files(s)| <= 16
  {
    CreateFailsIff(s);
  }

  // ---------------------------------------------------------------- handles

  /** The run never deletes the name the handle is bound to at that moment. */
  ghost predicate NeverDeleted(d: Disk, ops: seq<Op>, h: nat) {
    forall i :: 0 <= i < |ops| && h in RunOnDisk(d, ops[..i]).handles ==>
      ops[i] != DoDelete(RunOnDisk(d, ops[..i]).handles[h])
  }

  /** What was last written through the handle. */
  function LastWritten(ops: seq<Op>, h: nat, initial: Text): Text {
    if ops == [] then initial
    else
      match ops[|ops| - 1]
      case DoWrite(g, data) => if g == h then Cut(data) else LastWritten(ops[..|ops| - 1], h, initial)
      case _ => LastWritten(ops[..|ops| - 1], h, initial)
  }

  /** One call keeps the file behind a handle whose name it does not delete; only a write through it changes contents. */
  lemma HandleSurvives(s: Slots, op: Op, h: nat)
    requires Fs(s) && Polite(DiskOf(s), op) && h < 16 && s[h].Some? && op != DoDelete(s[h].value.name)
    ensures var t := Apply(s, op);
      && t[h].Some?
      && t[h].value.data == if op.DoWrite? && op.h == h then Cut(op.data) else s[h].value.data
  {
    hide Files, Contents, Names, FirstNamed, LastNamed, FirstFree;
  }

  /**
   Until its current name is deleted a handle denotes the same file: it stays live, open finds
   it under that name, and its contents are what was last written through it.
   */
  lemma {:induction false} HandleIsStable(s: Slots, ops: seq<Op>, h: nat)
    requires Fs(s) && PoliteRun(DiskOf(s), ops) && h < 16 && s[h].Some? && NeverDeleted(DiskOf(s), ops, h)
    ensures var t := Run(s, ops);
      && t[h].Some? && FirstNamed(t, t[h].value.name, 0) == h
      && t[h].value.data == LastWritten(ops, h, s[h].value.data)
  {
    hide Apply, OnDisk, Polite, Files, FirstNamed;
    RunRefines(s, ops);
    if ops != [] {
      var b := ops[..|ops| - 1];
      PolitePrefix(DiskOf(s), ops);
      assert forall i :: 0 <= i < |b| ==> b[..i] == ops[..i];
      HandleIsStable(s, b, h);
      RunRefines(s, b);
      var m := Run(s, b);
      assert h in Handles(m) && Handles(m)[h] == m[h].value.name;
      HandleSurvives(m, ops[|ops| - 1], h);
    }
    FirstNamedOf(Run(s, ops), Run(s, ops)[h].value.name, h);
  }
}
