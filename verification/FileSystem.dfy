/** fs.c and fisopfs.c over the superblock that they change in place. */
module FileSystem {
  import opened CString
  import opened DirectoryText
  import opened FsModel
  import opened FsRuns

  // ---------------------------------------------------------------- one pass over a directory text

  /** The entries from offset `o` on. */
  function Rest(text: string, o: nat): seq<string> { if o >= |text| then [] else Lines(text[o..]) }

  lemma NextLine(text: string, o: nat)
    requires o < |text|
    ensures Rest(text, o) == [text[o..LineEnd(text, o)]] + Rest(text, LineEnd(text, o) + 1)
  {
    hide LineEnd, Lines;
    var e, tail := LineEnd(text, o), text[o..];
    LineEndShift(text, o);
    FirstOf(tail);
    assert tail[..e - o] == text[o..e];
    assert e < |text| ==> tail[e - o + 1..] == text[e + 1..];
  }

  lemma FirstOf(text: string)
    requires text != ""
    ensures var e := LineEnd(text, 0);
            Lines(text) == [text[..e]] + if e < |text| then Lines(text[e + 1..]) else []
    ensures Lines("") == []
  {
  }

  lemma EndInText(content: string, o: nat)
    requires o <= |Text(content)|
    ensures o <= |content| && LineEnd(content, o) == LineEnd(Text(content), o)
  {
    var t := Text(content);
    assert t == content[..|t|];
    assert forall k :: 0 <= k < |t| ==> t[k] == content[k];
  }

  /** Yields the entry at `offset` and moves the offset past its end; at the end of the text nothing changes. */
  method GetNextEntry(content: string, offset: nat, buff: string) returns (next: nat, entry: string)
    requires offset <= |Text(content)|
    ensures offset < |Text(content)| ==>
              && entry == Text(content)[offset..LineEnd(Text(content), offset)]
              && next == LineEnd(Text(content), offset) + 1
    ensures offset == |Text(content)| ==> entry == buff && next == offset
  {
    EndInText(content, offset);
    var aux := offset;
    var i := 0;
    while aux < |content| && content[aux] != '\n' && content[aux] != '\0'
      invariant offset <= aux <= LineEnd(content, offset) && i == aux - offset
    {
      i := i + 1;
      aux := aux + 1;
    }
    if (aux == |content| || content[aux] == '\0') && i == 0 {
      return offset, buff;
    }
    i := i + 1;
    return offset + i, content[offset..aux];
  }

  method AddDentryToContent(content: string, size: int, dentry: string) returns (newContent: string, newSize: int)
    ensures forall inode: Inode :: inode.content == content && inode.size == size ==>
              AddEntry(inode, dentry) == inode.(content := newContent, size := newSize)
  {
    var line := dentry + "\n";
    newContent, newSize := Text(content), size;
    if |newContent| + |line| > size {
      newSize := size + |line| + INITIAL_CONTENT_LENGTH;
    }
    newContent := newContent + line;
  }

  /** The loop of remove_inode: a fresh text with every entry but `dirEntry`. */
  method CopyOtherEntries(parent: Inode, dirEntry: string) returns (newContent: string, newSize: int)
    ensures Rebuild(parent.(content := ""), Lines(Text(parent.content)), dirEntry) ==
            parent.(content := newContent, size := newSize)
  {
    hide Text, AddEntry, LineEnd, Lines;
    newContent, newSize := "", parent.size;
    ghost var text := Text(parent.content);
    var offset, buff := 0, "";
    var contentLength := |Text(parent.content)|;
    RestOfAll(text);
    while offset < contentLength
      invariant Rebuild(parent.(content := ""), Lines(text), dirEntry) ==
                Rebuild(parent.(content := newContent, size := newSize), Rest(text, offset), dirEntry)
      decreases contentLength - offset
    {
      NextLine(text, offset);
      RebuildStep(parent.(content := newContent, size := newSize), Rest(text, offset), dirEntry);
      offset, buff := GetNextEntry(parent.content, offset, buff);
      if buff != dirEntry {
        newContent, newSize := AddDentryToContent(newContent, newSize, buff);
      }
    }
  }

  lemma RestOfAll(text: string)
    ensures Rest(text, 0) == Lines(text)
    ensures forall o: nat :: o >= |text| ==> Rest(text, o) == []
  {
    assert text[0..] == text;
  }

  lemma RebuildStep(inode: Inode, entries: seq<string>, name: string)
    requires entries != []
    ensures Rebuild(inode, entries, name) ==
            Rebuild(if entries[0] != name then AddEntry(inode, entries[0]) else inode, entries[1..], name)
  {
  }

  /** The loop of readdir. */
  method FillEntries(content: string) returns (entries: seq<string>)
    ensures entries == [".", ".."] + Lines(Text(content))
  {
    hide Text, LineEnd, Lines, Rest;
    entries := [".", ".."];
    ghost var text := Text(content);
    var contentLength, offset, buff := |Text(content)|, 0, "";
    RestOfAll(text);
    while offset < contentLength
      invariant entries + Rest(text, offset) == [".", ".."] + Lines(text)
      decreases contentLength - offset
    {
      NextLine(text, offset);
      offset, buff := GetNextEntry(content, offset, buff);
      entries := entries + [buff];
    }
  }

  class Superblock {
    const inodes: array<Inode>
    const bitmap: array<bool>
    var inodeAmount: int

    predicate Valid()
      reads this
    {
      inodes.Length == INODES_AMOUNT && bitmap.Length == INODES_AMOUNT
    }

    function Contents(): (t: Table)
      reads this, inodes, bitmap
      requires Valid()
      ensures Sized(t)
    {
      Table(inodes[..], bitmap[..], inodeAmount)
    }

    /** fisopfs_init with nothing on disk. */
    constructor ()
      ensures Valid() && fresh(inodes) && fresh(bitmap)
      ensures Inv(Contents()) && Holds(Contents(), map["/" := Dir])
    {
      inodes := new Inode[INODES_AMOUNT](i => Inode("", "", 0, File, 0));
      bitmap := new bool[INODES_AMOUNT](i => false);
      inodeAmount := 0;
      new;
      ghost var before := inodes[..];
      assert bitmap[..] == seq(INODES_AMOUNT, i => false);
      FreshHolds(before);
      var i := CreateInode("/", 0x41ed, Dir);
    }

    method SearchInode(path: string) returns (i: int)
      requires Valid()
      ensures i == Search(Contents(), path)
    {
      i := 0;
      while i < INODES_AMOUNT && (!bitmap[i] || inodes[i].path != path)
        invariant 0 <= i <= INODES_AMOUNT && Search(Contents(), path, i) == Search(Contents(), path)
      {
        i := i + 1;
      }
      if i == INODES_AMOUNT { return ERROR; }
    }

    method SearchFreeInode() returns (i: int)
      requires Valid()
      ensures i == SearchFree(Contents())
    {
      i := 0;
      while i < INODES_AMOUNT && bitmap[i]
        invariant 0 <= i <= INODES_AMOUNT && SearchFree(Contents(), i) == SearchFree(Contents())
      {
        i := i + 1;
      }
      if i == INODES_AMOUNT { return -1; }
    }

    method CreateInode(path: string, mode: int, kind: Kind) returns (index: int)
      requires Valid()
      modifies this, inodes, bitmap
      ensures Valid() && (Contents(), index) == FsModel.CreateInode(old(Contents()), path, mode, kind)
    {
      if |path| >= MAX_PATH { return -ENAMETOOLONG; }
      index := SearchFreeInode();
      if index == -1 { return -ENOSPC; }
      inodes[index] := inodes[index].(path := path, content := "", size := 0, kind := kind, mode := mode);
      bitmap[index] := true;
      inodeAmount := inodeAmount + 1;
      assert inodes[..] == old(inodes[..])[index := Inode(path, "", 0, kind, mode)];
    }

    method GetParent(path: string) returns (parent: int)
      requires Valid() && path != "" && path[0] == '/'
      ensures parent == FsModel.GetParent(Contents(), path)
    {
      var lastSlash := LastSlash(path);
      if |path| == 1 { return ERROR; }
      var parentLength := if lastSlash == 0 then 1 else lastSlash;
      parent := SearchInode(path[..parentLength]);
    }

    method RemoveInode(path: string, index: nat)
      requires Valid() && index < INODES_AMOUNT && path != "" && path[0] == '/'
      modifies this, inodes, bitmap
      ensures Valid() && Contents() == FsModel.RemoveInode(old(Contents()), path, index)
    {
      bitmap[index] := false;
      var parent := GetParent(path);
      if parent == ERROR { return; }
      var dirEntry := path[LastSlash(path) + 1..];
      var newContent, newSize := CopyOtherEntries(inodes[parent], dirEntry);
      inodes[parent] := inodes[parent].(content := newContent, size := newSize);
      inodeAmount := inodeAmount - 1;
    }

    method AddDentryToParentDir(path: string) returns (result: int)
      requires Valid() && path != "" && path[0] == '/'
      modifies inodes
      ensures Valid() && (Contents(), result) == AddToParent(old(Contents()), path)
    {
      var parent := GetParent(path);
      if parent == ERROR { return -ERROR; }
      if inodes[parent].kind != Dir { return -ENOTDIR; }
      var dirEntry := path[LastSlash(path) + 1..];
      var content, size := AddDentryToContent(inodes[parent].content, inodes[parent].size, dirEntry);
      inodes[parent] := inodes[parent].(content := content, size := size);
      return 0;
    }

    /** The common body of mkdir and create. */
    method MakeInode(path: string, mode: int, kind: Kind) returns (result: int)
      requires Valid() && path != "" && path[0] == '/'
      modifies this, inodes, bitmap
      ensures Valid() && (Contents(), result) == Make(old(Contents()), path, mode, kind)
    {
      var index := CreateInode(path, mode, kind);
      if index < 0 { return index; }
      result := AddDentryToParentDir(path);
      if result < 0 { return result; }
      return 0;
    }

    method Mkdir(path: string, mode: int) returns (result: int)
      requires Valid() && path != "" && path[0] == '/'
      modifies this, inodes, bitmap
      ensures Valid() && (Contents(), result) == Apply(old(Contents()), MakeDir(path, mode))
    {
      result := MakeInode(path, mode, Dir);
    }

    method Create(path: string, mode: int) returns (result: int)
      requires Valid() && path != "" && path[0] == '/'
      modifies this, inodes, bitmap
      ensures Valid() && (Contents(), result) == Apply(old(Contents()), CreateFile(path, mode))
    {
      result := MakeInode(path, mode, File);
    }

    method Unlink(path: string) returns (result: int)
      requires Valid() && path != "" && path[0] == '/'
      modifies this, inodes, bitmap
      ensures Valid() && (Contents(), result) == Apply(old(Contents()), UnlinkFile(path))
    {
      var index := SearchInode(path);
      if index == ERROR { return -ENOENT; }
      if inodes[index].kind != File { return -EISDIR; }
      RemoveInode(path, index);
      return 0;
    }

    method Rmdir(path: string) returns (result: int)
      requires Valid() && path != "" && path[0] == '/'
      modifies this, inodes, bitmap
      ensures Valid() && (Contents(), result) == Apply(old(Contents()), RemoveDir(path))
    {
      var index := SearchInode(path);
      if index == ERROR { return -ENOENT; }
      if inodes[index].kind != Dir { return -ENOTDIR; }
      var contentLength := |Text(inodes[index].content)|;
      if contentLength > 0 { return -ENOTEMPTY; }
      RemoveInode(path, index);
      return 0;
    }

    /** `entries` is what the filler got, in order. */
    method Readdir(path: string) returns (entries: seq<string>, result: int)
      requires Valid()
      ensures (entries, result) == FsModel.Readdir(Contents(), path)
    {
      entries := [".", ".."];
      var index := SearchInode(path);
      if index == ERROR { return entries, -ENOENT; }
      var inode := inodes[index];
      if inode.kind != Dir { return entries, -ENOTDIR; }
      entries := FillEntries(inode.content);
      return entries, 0;
    }
  }
}
