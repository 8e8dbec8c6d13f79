/** fs.c: the static file table, updated in place, proved against FsModel. */
module FsDevice {
  import opened CTypes
  import opened CStrings
  import M = FsModel

  /** The files are slots of parallel arrays; a handle is a slot number, -1 the null pointer. */
  class FileTable {
    const names: array2<Char>   // files[i].name, 32 bytes each
    const data: array2<Char>    // files[i].data, 4096 bytes each
    const size: array<int>
    const used: array<bool>

    ghost var model: M.Slots

    ghost function Repr(): set<object> {
      {this, names, data, size, used}
    }

    ghost predicate Shape() {
      && names.Length0 == 16 && names.Length1 == 32
      && data.Length0 == 16 && data.Length1 == 4096
      && size.Length == 16 && used.Length == 16 && names != data
    }

    ghost predicate NameIs(i: int, name: M.Text)
      requires Shape() && 0 <= i < 16
      reads names
    {
      && |name| <= 31 && NUL !in name && names[i, |name|] == NUL
      && forall k :: 0 <= k < |name| ==> names[i, k] == name[k]
    }

    ghost predicate DataIs(i: int, text: M.Text)
      requires Shape() && 0 <= i < 16
      reads data
    {
      |text| <= 4096 && forall k :: 0 <= k < |text| ==> data[i, k] == text[k]
    }

    ghost predicate SlotIs(i: int, o: Option<M.File>)
      requires Shape() && 0 <= i < 16
      reads names, data, size, used
    {
      match o
      case None => !used[i]
      case Some(f) => used[i] && NameIs(i, f.name) && DataIs(i, f.data) && size[i] == |f.data|
    }

    ghost predicate Valid()
      reads this, names, data, size, used
    {
      Shape() && forall i :: 0 <= i < 16 ==> SlotIs(i, model[i])
    }

    /** Boot state, then fs_init. */
    constructor ()
      ensures Valid() && fresh(Repr()) && model == seq(16, _ => None)
    {
      names := new Char[16, 32]((_, _) => NUL);
      data := new Char[16, 4096]((_, _) => NUL);
      size := new int[16](_ => 0);
      used := new bool[16](_ => false);
      model := seq<Option<M.File>>(16, _ => None);
    }

    method Init()
      requires Valid()
      modifies this, used
      ensures Valid() && model == seq(16, _ => None)
    {
      for i := 0 to 16
        invariant forall k :: 0 <= k < i ==> !used[k]
      {
        used[i] := false;
      }
      model := seq<Option<M.File>>(16, _ => None);
    }

    /** The stored name as strcmp reads it. */
    method NameOf(i: int) returns (mem: seq<Char>)
      requires Shape() && 0 <= i < 16
      ensures |mem| == 32 && forall k :: 0 <= k < 32 ==> mem[k] == names[i, k]
    {
      mem := seq(32, k requires 0 <= k < 32 && names.Length0 == 16 && names.Length1 == 32 && 0 <= i < 16 reads names => names[i, k]);
    }

    /** `files[i].used && strcmp(files[i].name, name) == 0` */
    method Matches(i: int, name: seq<Char>) returns (b: bool)
      requires Valid() && 0 <= i < 16 && NUL in name
      ensures b <==> M.Named(model[i], Text(name))
    {
      b := false;
      if used[i] {
        var mem := NameOf(i);
        TextIs(mem, model[i].value.name);
        var c := StrCmp(mem, name);
        b := c == 0;
      }
    }

    static lemma TextIs(mem: seq<Char>, t: seq<Char>)
      requires |t| < |mem| && t == mem[..|t|] && mem[|t|] == NUL && NUL !in t
      ensures NUL in mem && Text(mem) == t
    {
      assert mem[|t|] in mem;
    }

    /** copy_name */
    method CopyName(i: int, name: seq<Char>)
      requires Shape() && 0 <= i < 16 && NUL in name
      modifies names
      ensures NameIs(i, M.Truncate(Text(name)))
      ensures forall r, k :: 0 <= r < 16 && 0 <= k < 32 && r != i ==> names[r, k] == old(names[r, k])
    {
      ghost var t := Text(name);
      var k := 0;
      while name[k] != NUL && k < 31
        invariant 0 <= k <= |t| && k <= 31
        invariant forall j :: 0 <= j < k ==> names[i, j] == t[j]
        invariant forall r, j :: 0 <= r < 16 && 0 <= j < 32 && r != i ==> names[r, j] == old(names[r, j])
        decreases |t| - k
      {
        names[i, k] := name[k];
        k := k + 1;
      }
      names[i, k] := NUL;
    }

    method Create(name: seq<Char>) returns (h: int)
      requires Valid() && NUL in name
      modifies this, names, size, used
      ensures Valid() && model == M.Create(old(model), Text(name))
      ensures h == (if M.FirstFree(old(model), 0) < 16 then M.FirstFree(old(model), 0) else -1)
    {
      for i := 0 to 16
        invariant Valid() && model == old(model)
        invariant M.FirstFree(model, 0) == M.FirstFree(model, i)
      {
        if !used[i] {
          CopyName(i, name);
          size[i] := 0;
          used[i] := true;
          model := model[i := Some(M.File(M.Truncate(Text(name)), []))];
          return i;
        }
      }
      h := -1;
    }

    method Open(name: seq<Char>) returns (h: int)
      requires Valid() && NUL in name
      ensures h == (if M.FirstNamed(model, Text(name), 0) < 16 then M.FirstNamed(model, Text(name), 0) else -1)
    {
      for i := 0 to 16
        invariant M.FirstNamed(model, Text(name), 0) == M.FirstNamed(model, Text(name), i)
      {
        var b := Matches(i, name);
        if b {
          return i;
        }
      }
      h := -1;
    }

    /** `text` is the caller's memory, of which `len` bytes are to be written. */
    method Write(h: int, text: seq<Char>, len: nat) returns (r: int)
      requires Valid() && -1 <= h < 16 && len <= |text|
      modifies this, data, size
      ensures Valid() && model == M.Write(old(model), h, text[..len])
      ensures r == if h >= 0 && old(model)[h].Some? then Min(len, 4096) else -1
    {
      if h < 0 || !used[h] {
        return -1;
      }
      var n := len;
      if n > 4096 {
        n := 4096;
      }
      for i := 0 to n
        modifies data
        invariant forall k :: 0 <= k < i ==> data[h, k] == text[k]
        invariant forall g, k :: 0 <= g < 16 && 0 <= k < 4096 && g != h ==> data[g, k] == old(data[g, k])
      {
        data[h, i] := text[i];
      }
      size[h] := n;
      model := model[h := Some(model[h].value.(data := text[..n]))];
      assert text[..len][..n] == text[..n];
      r := n;
    }

    method Read(h: int, buf: array<Char>, len: nat) returns (r: int)
      requires Valid() && -1 <= h < 16 && len <= buf.Length && buf !in Repr()
      modifies buf
      ensures Valid()
      ensures if h >= 0 && model[h].Some? then
                && r == Min(len, |model[h].value.data|)
                && buf[..r] == model[h].value.data[..r] && buf[r..] == old(buf[r..])
              else r == -1 && buf[..] == old(buf[..])
    {
      if h < 0 || !used[h] {
        return -1;
      }
      assert SlotIs(h, model[h]);
      r := len;
      if r > size[h] {
        r := size[h];
      }
      for i := 0 to r
        invariant forall k :: 0 <= k < i ==> buf[k] == model[h].value.data[k]
        invariant forall k :: i <= k < buf.Length ==> buf[k] == old(buf[k])
      {
        buf[i] := data[h, i];
      }
    }

    method IsLive(i: int) returns (b: bool)
      requires Valid() && 0 <= i < 16
      ensures b <==> model[i].Some?
    {
      assert SlotIs(i, model[i]);
      b := used[i];
    }

    /** The live slots, as many as the caller has room for. */
    method List(list: array<int>, max: nat) returns (count: int)
      requires Valid() && max <= list.Length && list as object !in Repr()
      modifies list
      ensures Valid() && count == Min(max, |M.Live(model, 0)|)
      ensures list[..count] == M.Live(model, 0)[..count]
    {
      hide Valid, M.Live;
      ghost var live := M.Live(model, 0);
      count := 0;
      var i := 0;
      while i < 16 && count < max
        invariant 0 <= i <= 16 && 0 <= count <= max && Valid()
        invariant |live| == count + |M.Live(model, i)| && live[count..] == M.Live(model, i)
        invariant list[..count] == live[..count]
        invariant i == 16 ==> M.Live(model, i) == []
      {
        M.LiveStep(model, i);
        var isLive := IsLive(i);
        if isLive {
          assert live[count..][0] == i && live[count..][1..] == live[count + 1..];
          list[count] := i;
          count := count + 1;
        }
        i := i + 1;
      }
    }

    method Delete(name: seq<Char>) returns (r: int)
      requires Valid() && NUL in name
      modifies this, size, used
      ensures Valid() && model == M.Delete(old(model), Text(name))
      ensures r == if M.FirstNamed(old(model), Text(name), 0) < 16 then 0 else -1
    {
      for i := 0 to 16
        invariant Valid() && model == old(model)
        invariant M.FirstNamed(model, Text(name), 0) == M.FirstNamed(model, Text(name), i)
      {
        var b := Matches(i, name);
        if b {
          used[i] := false;
          size[i] := 0;
          model := model[i := None];
          return 0;
        }
      }
      r := -1;
    }

    /** The loop of fs_rename: the last slot with the old name, unless the new name is taken. */
    method FindSource(oldName: seq<Char>, newName: seq<Char>) returns (src: int, taken: bool)
      requires Valid() && NUL in oldName && NUL in newName
      ensures taken <==> M.FirstNamed(model, Text(newName), 0) < 16
      ensures !taken ==> src == M.LastNamed(model, Text(oldName), 16)
    {
      hide Valid, M.FirstNamed, M.LastNamed;
      M.SearchEnds(model, Text(newName));
      M.SearchEnds(model, Text(oldName));
      src := -1;
      for i := 0 to 16
        invariant src == M.LastNamed(model, Text(oldName), i)
        invariant M.FirstNamed(model, Text(newName), 0) == M.FirstNamed(model, Text(newName), i)
      {
        M.SearchStep(model, Text(newName), i);
        M.SearchStep(model, Text(oldName), i);
        var b := Matches(i, oldName);
        if b {
          src := i;
        }
        b := Matches(i, newName);
        if b {
          return src, true;
        }
      }
      taken := false;
    }

    method Rename(oldName: seq<Char>, newName: seq<Char>) returns (r: int)
      requires Valid() && NUL in oldName && NUL in newName
      modifies this, names
      ensures Valid() && model == M.Rename(old(model), Text(oldName), Text(newName))
      ensures r == if M.Renames(old(model), Text(oldName), Text(newName)) then 0 else -1
    {
      hide DataIs;
      var src, taken := FindSource(oldName, newName);
      if taken || src == -1 {
        return -1;
      }
      assert SlotIs(src, model[src]);
      CopyName(src, newName);
      model := model[src := Some(model[src].value.(name := M.Truncate(Text(newName))))];
      r := 0;
    }
  }
}
