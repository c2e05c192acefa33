/** Every operation on paths keeps the directory texts in step with the inode table, and exactly when. */
module FsProofs {
  import opened CString
  import opened DirectoryText
  import opened FsModel

  /** `u` is `t` with slot `i` given `path` and `kind` and the text of directory `j` rewritten. */
  ghost predicate Made(t: Table, u: Table, i: nat, j: nat, path: string, kind: Kind) {
    && Sized(t) && Sized(u) && path != "" && path[0] == '/' && i < INODES_AMOUNT && !t.live[i] && LiveAt(t, j)
    && u.live == t.live[i := true]
    && u.inodes[i].path == path && u.inodes[i].kind == kind && u.inodes[i].content == "" && u.inodes[i].size == 0
    && u.inodes[j] == AddEntry(t.inodes[j], Base(path))
    && (forall k :: 0 <= k < INODES_AMOUNT && k != i && k != j ==> u.inodes[k] == t.inodes[k])
    && u.amount == t.amount + 1
  }

  /** Nothing stands in the way of a new entry: the path is free, its parent is a directory and its name is one
      line. */
  ghost predicate CanMake(t: Table, path: string)
    requires Sized(t) && path != "" && path[0] == '/'
  {
    !Exists(t, path) && Has(t, Parent(path), Dir) && '\n' !in Base(path)
  }

  /** Taking a free slot for another path does not change what is found at `dir`. */
  lemma SearchAfterCreate(t: Table, path: string, mode: int, kind: Kind, dir: string)
    requires Sized(t) && Distinct(t) && |path| < MAX_PATH && SearchFree(t) != -1 && dir != path && Has(t, dir, Dir)
    ensures Search(CreateInode(t, path, mode, kind).0, dir) == Search(t, dir) != ERROR
    ensures t.inodes[Search(t, dir)].kind == Dir
  {
    var u := CreateInode(t, path, mode, kind).0;
    var k :| LiveAt(t, k) && t.inodes[k].path == dir && t.inodes[k].kind == Dir;
    hide Search, SearchFree;
    assert LiveAt(u, k) && u.inodes[k].path == dir;
    var r := Search(u, dir);
    assert LiveAt(t, r) && t.inodes[r].path == dir;
  }

  /** Adding to a parent that is found and is a directory. */
  lemma AddedToParent(u: Table, path: string, j: nat)
    requires Sized(u) && |path| > 1 && path[0] == '/' && Search(u, Parent(path)) == j < INODES_AMOUNT
    requires u.inodes[j].kind == Dir
    ensures AddToParent(u, path) == (u.(inodes := u.inodes[j := AddEntry(u.inodes[j], Base(path))]), 0)
  {
    hide Search, Parent, Base, AddEntry;
  }

  lemma CreatedAt(t: Table, path: string, mode: int, kind: Kind)
    requires Sized(t) && |path| < MAX_PATH && SearchFree(t) != -1
    ensures var i := SearchFree(t);
            CreateInode(t, path, mode, kind) ==
            (Table(t.inodes[i := Inode(path, "", 0, kind, mode)], t.live[i := true], t.amount + 1), i)
  {
    hide SearchFree;
  }

  /** With a slot free, mkdir and create come down to the entry in the parent. */
  lemma MakeIs(t: Table, path: string, mode: int, kind: Kind)
    requires Sized(t) && |path| < MAX_PATH && SearchFree(t) != -1 && path != "" && path[0] == '/'
    ensures Sized(CreateInode(t, path, mode, kind).0)
    ensures var added := AddToParent(CreateInode(t, path, mode, kind).0, path);
            Make(t, path, mode, kind) == (added.0, if added.1 < 0 then added.1 else 0)
  {
    hide SearchFree, AddToParent;
  }

  /** The table that mkdir and create leave when nothing stands in the way. */
  function MadeTable(t: Table, i: nat, j: nat, path: string, mode: int, kind: Kind): Table
    requires Sized(t) && i < INODES_AMOUNT && j < INODES_AMOUNT && path != "" && path[0] == '/'
  {
    Table(t.inodes[i := Inode(path, "", 0, kind, mode)][j := AddEntry(t.inodes[j], Base(path))], t.live[i := true],
          t.amount + 1)
  }

  lemma MadeTableMade(t: Table, i: nat, j: nat, path: string, mode: int, kind: Kind)
    requires Sized(t) && i < INODES_AMOUNT && !t.live[i] && LiveAt(t, j) && path != "" && path[0] == '/'
    ensures Made(t, MadeTable(t, i, j, path, mode, kind), i, j, path, kind)
  {
    hide AddEntry, Base;
  }

  lemma MakeShape(t: Table, path: string, mode: int, kind: Kind) returns (i: nat, j: nat)
    requires Sized(t) && Distinct(t) && Absolute(path) && |path| < MAX_PATH && SearchFree(t) != -1
    requires path != "/" && Has(t, Parent(path), Dir)
    ensures j < INODES_AMOUNT && t.inodes[j].path == Parent(path) && t.inodes[j].kind == Dir
    ensures Made(t, Make(t, path, mode, kind).0, i, j, path, kind) && Make(t, path, mode, kind).1 == 0
  {
    assert path[0] == '/';
    hide Parent, Base, Absolute, Search, SearchFree, Distinct, Has, AddEntry, AddToParent, CreateInode, Made, Make;
    PlaceOf(path);
    MakeIs(t, path, mode, kind);
    SearchAfterCreate(t, path, mode, kind, Parent(path));
    i := SearchFree(t);
    j := Search(t, Parent(path));
    CreatedAt(t, path, mode, kind);
    assert LiveAt(t, j) && j != i;
    AddedToParent(CreateInode(t, path, mode, kind).0, path, j);
    MadeTableMade(t, i, j, path, mode, kind);
  }

  lemma MadeHas(t: Table, u: Table, i: nat, j: nat, path: string, kind: Kind)
    requires Made(t, u, i, j, path, kind)
    ensures forall p, k :: Has(u, p, k) <==> Has(t, p, k) || (p == path && k == kind)
  {
    forall p, k | Has(t, p, k) ensures Has(u, p, k) {
      var a :| LiveAt(t, a) && t.inodes[a].path == p && t.inodes[a].kind == k;
      assert LiveAt(u, a) && u.inodes[a].path == p && u.inodes[a].kind == k;
    }
    forall p, k | Has(u, p, k) ensures Has(t, p, k) || (p == path && k == kind) {
      var a :| LiveAt(u, a) && u.inodes[a].path == p && u.inodes[a].kind == k;
      assert a != i ==> LiveAt(t, a) && t.inodes[a].path == p && t.inodes[a].kind == k;
    }
    assert LiveAt(u, i);
  }

  lemma MadeChildren(t: Table, u: Table, i: nat, j: nat, path: string, kind: Kind)
    requires Made(t, u, i, j, path, kind)
    ensures forall d, n :: IsChild(u, d, n) <==> IsChild(t, d, n) || HasPlace(path, d, n)
  {
    hide HasPlace;
    forall d, n | IsChild(t, d, n) ensures IsChild(u, d, n) {
      var a :| LiveAt(t, a) && HasPlace(t.inodes[a].path, d, n);
      assert LiveAt(u, a) && HasPlace(u.inodes[a].path, d, n);
    }
    forall d, n | IsChild(u, d, n) ensures IsChild(t, d, n) || HasPlace(path, d, n) {
      var a :| LiveAt(u, a) && HasPlace(u.inodes[a].path, d, n);
      assert a != i ==> LiveAt(t, a) && HasPlace(t.inodes[a].path, d, n);
    }
    assert LiveAt(u, i) && u.inodes[i].path == path;
  }

  lemma NoHeirs(t: Table, path: string)
    requires Sized(t) && ParentsOk(t) && !Exists(t, path)
    ensures forall n :: !IsChild(t, path, n)
  {
    assert !Has(t, path, Dir);
    hide Parent, Base, Has, Exists;
    forall a, n | LiveAt(t, a) ensures !HasPlace(t.inodes[a].path, path, n) {
      assert ParentOk(t, t.inodes[a].path);
    }
  }

  lemma NoNamesake(t: Table, path: string)
    requires Sized(t) && PathsOk(t) && Absolute(path) && path != "/" && !Exists(t, path)
    ensures !IsChild(t, Parent(path), Base(path))
  {
    hide Parent, Base;
    forall a | LiveAt(t, a) ensures !HasPlace(t.inodes[a].path, Parent(path), Base(path)) {
      if HasPlace(t.inodes[a].path, Parent(path), Base(path)) { SamePlace(t.inodes[a].path, path); }
    }
  }

  /** A directory left alone whose children are the same stays sound. */
  lemma DirLeft(t: Table, u: Table, d: nat)
    requires Sized(t) && Sized(u) && d < INODES_AMOUNT && DirOk(t, d) && u.inodes[d] == t.inodes[d]
    requires forall n :: IsChild(u, t.inodes[d].path, n) <==> IsChild(t, t.inodes[d].path, n)
    ensures DirOk(u, d)
  {
    hide IsChild;
  }

  lemma NewDir(u: Table, i: nat)
    requires Sized(u) && i < INODES_AMOUNT && u.inodes[i].content == "" && u.inodes[i].size == 0
    requires forall n :: !IsChild(u, u.inodes[i].path, n)
    ensures DirOk(u, i)
  {
    hide IsChild;
    assert Text("") == "" && Lines("") == [];
  }

  lemma OnePlace(path: string, dir: string)
    requires path != "" && path[0] == '/' && path != "/"
    ensures dir != Parent(path) ==> forall n :: !HasPlace(path, dir, n)
    ensures dir == Parent(path) ==> forall n :: HasPlace(path, dir, n) <==> n == Base(path)
  {
  }

  lemma OtherDirs(t: Table, u: Table, i: nat, j: nat, path: string, kind: Kind, d: nat)
    requires Made(t, u, i, j, path, kind) && Distinct(t) && DirsOk(t) && t.inodes[j].path == Parent(path) && path != "/"
    requires LiveAt(u, d) && d != i && d != j && u.inodes[d].kind == Dir
    ensures DirOk(u, d)
  {
    MadeChildren(t, u, i, j, path, kind);
    OnePlace(path, u.inodes[d].path);
    hide IsChild, Parent, Base, DirOk, HasPlace, AddEntry;
    assert LiveAt(t, d) && LiveAt(t, j);
    DirLeft(t, u, d);
  }

  lemma MadeDirs(t: Table, u: Table, i: nat, j: nat, path: string, kind: Kind)
    requires Made(t, u, i, j, path, kind) && Distinct(t) && ParentsOk(t) && PathsOk(t) && DirsOk(t)
    requires Absolute(path) && path != "/" && !Exists(t, path)
    requires t.inodes[j].path == Parent(path) && t.inodes[j].kind == Dir && '\n' !in Base(path)
    ensures DirsOk(u)
  {
    hide Exists, ParentsOk, PathsOk, IsChild, Parent, Base, DirOk, Absolute, HasPlace, AddEntry, Distinct;
    PlaceOf(path);
    NoHeirs(t, path);
    NoNamesake(t, path);
    MadeChildren(t, u, i, j, path, kind);
    OnePlace(path, Parent(path));
    OnePlace(path, path);
    EntryAdded(t, u, j, Base(path), path);
    NewDir(u, i);
    forall d | LiveAt(u, d) && d != i && d != j && u.inodes[d].kind == Dir ensures DirOk(u, d) {
      OtherDirs(t, u, i, j, path, kind, d);
    }
  }

  lemma TextOfPlain(text: string)
    requires '\0' !in text
    ensures Text(text) == text
  {
  }

  lemma BasePlain(path: string)
    requires Absolute(path) && '\n' !in Base(path)
    ensures Plain(Base(path))
  {
  }

  /** A directory that gets one more child and one more entry. */
  lemma EntryAdded(t: Table, u: Table, j: nat, name: string, path: string)
    requires Sized(t) && Sized(u) && j < INODES_AMOUNT && DirOk(t, j) && Absolute(path) && name == Base(path)
    requires '\n' !in name && u.inodes[j] == AddEntry(t.inodes[j], name)
    requires !IsChild(t, t.inodes[j].path, name)
    requires forall n :: IsChild(u, t.inodes[j].path, n) <==> IsChild(t, t.inodes[j].path, n) || n == name
    ensures DirOk(u, j)
  {
    BasePlain(path);
    hide IsChild, Absolute, Base;
    var text := Text(t.inodes[j].content);
    LinesSnoc(text, name);
    TextOfPlain(text + (name + "\n"));
    hide Lines, Text, Plain;
  }

  lemma MadeDistinct(t: Table, u: Table, i: nat, j: nat, path: string, kind: Kind)
    requires Made(t, u, i, j, path, kind) && Distinct(t) && !Exists(t, path)
    ensures Distinct(u)
  {
    assert forall a :: LiveAt(u, a) && a != i ==> LiveAt(t, a) && u.inodes[a].path == t.inodes[a].path != path;
  }

  lemma MadePaths(t: Table, u: Table, i: nat, j: nat, path: string, kind: Kind)
    requires Made(t, u, i, j, path, kind) && PathsOk(t) && ParentsOk(t) && Absolute(path) && |path| < MAX_PATH
    requires Has(t, Parent(path), Dir)
    ensures PathsOk(u) && ParentsOk(u)
  {
    MadeHas(t, u, i, j, path, kind);
    assert path[0] == '/';
    hide Has, Parent, Absolute;
    forall a | LiveAt(u, a)
      ensures ParentOk(u, u.inodes[a].path) && Absolute(u.inodes[a].path) && |u.inodes[a].path| < MAX_PATH
    {
      if a != i {
        assert LiveAt(t, a) && u.inodes[a].path == t.inodes[a].path;
        assert ParentOk(t, t.inodes[a].path);
      }
    }
  }

  lemma SearchIs(t: Table, j: nat)
    requires Sized(t) && Distinct(t) && LiveAt(t, j)
    ensures Search(t, t.inodes[j].path) == j
  {
  }

  lemma MadeListing(t: Table, u: Table, i: nat, j: nat, path: string, kind: Kind)
    requires Made(t, u, i, j, path, kind) && Distinct(t) && Distinct(u) && DirOk(t, j) && Absolute(path)
    requires t.inodes[j].path == Parent(path) && t.inodes[j].kind == Dir && '\n' !in Base(path)
    ensures Listing(u, Parent(path)) == Listing(t, Parent(path)) + [Base(path)]
  {
    SearchIs(t, j);
    SearchIs(u, j);
    var text, name := Text(t.inodes[j].content), Base(path);
    BasePlain(path);
    LinesSnoc(text, name);
    TextOfPlain(text + (name + "\n"));
    hide Distinct, IsChild, Absolute, Parent, Base, Search, Lines, Text;
  }

  lemma RootExists(t: Table)
    requires Inv(t)
    ensures Exists(t, "/")
  {
  }

  /** A new path in its place: the invariant holds, exactly that path is added, and the parent lists one more
      name, at the end. */
  lemma MakeCorrect(t: Table, path: string, mode: int, kind: Kind)
    requires Inv(t) && Absolute(path) && |path| < MAX_PATH && SearchFree(t) != -1 && CanMake(t, path)
    ensures var (u, result) := Make(t, path, mode, kind);
            && Inv(u) && result == 0
            && (forall p, k :: Has(u, p, k) <==> Has(t, p, k) || (p == path && k == kind))
            && Listing(u, Parent(path)) == Listing(t, Parent(path)) + [Base(path)]
  {
    assert path != "" && path[0] == '/';
    RootExists(t);
    hide Parent, Base, Absolute, Make, Listing, Has, Exists, PathsOk, Distinct, ParentsOk, DirOk, Count;
    var u := Make(t, path, mode, kind).0;
    var i, j := MakeShape(t, path, mode, kind);
    assert DirOk(t, j);
    CountUpdate(t.live, i, true);
    assert Sized(u) && u.amount == Count(u.live);
    hide Made, DirsOk;
    MadeHas(t, u, i, j, path, kind);
    MadeDirs(t, u, i, j, path, kind);
    MadePaths(t, u, i, j, path, kind);
    MadeDistinct(t, u, i, j, path, kind);
    MadeListing(t, u, i, j, path, kind);
  }

  // ---------------------------------------------------------------- removal

  /** Adding entries to a text that has room for them never grows the buffer. */
  lemma {:induction false} RebuildIs(inode: Inode, entries: seq<string>, name: string)
    requires '\0' !in inode.content && forall n :: n in entries ==> Plain(n)
    requires |inode.content| + |Join(Without(entries, name))| <= inode.size
    ensures Rebuild(inode, entries, name) == inode.(content := inode.content + Join(Without(entries, name)))
    decreases |entries|
  {
    if entries == [] {
      assert inode.content + "" == inode.content;
    } else {
      var rest := Without(entries[1..], name);
      assert entries[0] in entries && Plain(entries[0]);
      TextOfPlain(inode.content);
      if entries[0] != name {
        JoinCons(entries[0], rest);
        var added := AddEntry(inode, entries[0]);
        assert inode.content + (entries[0] + "\n") + Join(rest) == inode.content + (entries[0] + "\n" + Join(rest));
        RebuildIs(added, entries[1..], name);
      } else {
        assert [] + rest == rest;
        RebuildIs(inode, entries[1..], name);
      }
    }
  }

  /** `u` is `t` without slot `i`, whose path is `path`, and with the text of directory `j` rewritten. */
  ghost predicate Gone(t: Table, u: Table, i: nat, j: nat, path: string) {
    && Sized(t) && Sized(u) && path != "" && path[0] == '/' && LiveAt(t, i) && LiveAt(t, j) && i != j
    && t.inodes[i].path == path && u.live == t.live[i := false] && u.amount == t.amount - 1
    && (var d := t.inodes[j];
        u.inodes[j] == d.(content := Join(Without(Lines(Text(d.content)), Base(path)))))
    && (forall k :: 0 <= k < INODES_AMOUNT && k != j ==> u.inodes[k] == t.inodes[k])
  }

  lemma SearchAfterRemove(t: Table, i: nat, dir: string)
    requires Sized(t) && Distinct(t) && LiveAt(t, i) && t.inodes[i].path != dir && Has(t, dir, Dir)
    ensures var j := Search(t.(live := t.live[i := false]), dir);
            LiveAt(t, j) && j != i && t.inodes[j].path == dir && t.inodes[j].kind == Dir
  {
    var u := t.(live := t.live[i := false]);
    var k :| LiveAt(t, k) && t.inodes[k].path == dir && t.inodes[k].kind == Dir;
    hide Search;
    assert LiveAt(u, k);
    assert LiveAt(t, Search(u, dir));
  }

  /** The text that remove_inode builds for a sound directory. */
  lemma RebuildSound(d: Inode, name: string)
    requires Terminated(Text(d.content)) && |Text(d.content)| <= d.size
    ensures Rebuild(d.(content := ""), Lines(Text(d.content)), name) ==
            d.(content := Join(Without(Lines(Text(d.content)), name)))
  {
    var lines := Lines(Text(d.content));
    LinesPlain(Text(d.content));
    WithoutMember(lines, name);
    JoinOfLines(Text(d.content));
    RebuildIs(d.(content := ""), lines, name);
    assert "" + Join(Without(lines, name)) == Join(Without(lines, name));
  }

  lemma RemoveShape(t: Table, path: string, i: nat) returns (j: nat)
    requires Sized(t) && Distinct(t) && DirsOk(t) && LiveAt(t, i) && t.inodes[i].path == path && Absolute(path)
    requires path != "/" && Has(t, Parent(path), Dir)
    ensures j < INODES_AMOUNT && t.inodes[j].path == Parent(path) && t.inodes[j].kind == Dir
    ensures Gone(t, RemoveInode(t, path, i), i, j, path)
  {
    hide Parent, Base, Search, Has, Rebuild, Text, Lines, Distinct, Join, Without, IsChild;
    PlaceOf(path);
    SearchAfterRemove(t, i, Parent(path));
    j := Search(t.(live := t.live[i := false]), Parent(path));
    assert DirOk(t, j);
    hide DirOk, DirsOk, Absolute;
    RebuildSound(t.inodes[j], Base(path));
  }

  lemma GoneHas(t: Table, u: Table, i: nat, j: nat, path: string)
    requires Gone(t, u, i, j, path) && Distinct(t)
    ensures forall p, k :: Has(u, p, k) <==> Has(t, p, k) && p != path
  {
    forall p, k | Has(t, p, k) && p != path ensures Has(u, p, k) {
      var a :| LiveAt(t, a) && t.inodes[a].path == p && t.inodes[a].kind == k;
      assert LiveAt(u, a) && u.inodes[a].path == p && u.inodes[a].kind == k;
    }
    forall p, k | Has(u, p, k) ensures Has(t, p, k) && p != path {
      var a :| LiveAt(u, a) && u.inodes[a].path == p && u.inodes[a].kind == k;
      assert LiveAt(t, a) && t.inodes[a].path == p && t.inodes[a].kind == k;
    }
  }

  lemma GoneChildren(t: Table, u: Table, i: nat, j: nat, path: string)
    requires Gone(t, u, i, j, path) && Distinct(t) && PathsOk(t) && path != "/"
    ensures forall d, n :: IsChild(u, d, n) <==> IsChild(t, d, n) && !HasPlace(path, d, n)
  {
    forall d, n | IsChild(t, d, n) && !HasPlace(path, d, n) ensures IsChild(u, d, n) {
      var a :| LiveAt(t, a) && HasPlace(t.inodes[a].path, d, n);
      assert LiveAt(u, a) && HasPlace(u.inodes[a].path, d, n);
    }
    forall d, n | IsChild(u, d, n) ensures IsChild(t, d, n) && !HasPlace(path, d, n) {
      var a :| LiveAt(u, a) && HasPlace(u.inodes[a].path, d, n);
      assert LiveAt(t, a) && HasPlace(t.inodes[a].path, d, n);
      if HasPlace(path, d, n) { SamePlace(path, t.inodes[a].path); }
    }
  }

  lemma EntryRemoved(t: Table, u: Table, j: nat, name: string)
    requires Sized(t) && Sized(u) && j < INODES_AMOUNT && DirOk(t, j)
    requires u.inodes[j] == t.inodes[j].(content := Join(Without(Lines(Text(t.inodes[j].content)), name)))
    requires forall n :: IsChild(u, t.inodes[j].path, n) <==> IsChild(t, t.inodes[j].path, n) && n != name
    ensures DirOk(u, j)
    ensures Lines(Text(u.inodes[j].content)) == Without(Lines(Text(t.inodes[j].content)), name)
  {
    hide IsChild;
    var text := Text(t.inodes[j].content);
    LinesPlain(text);
    JoinOfLines(text);
    WithoutMember(Lines(text), name);
    LinesOfJoin(Without(Lines(text), name));
    TextOfPlain(Join(Without(Lines(text), name)));
    hide Lines, Text, Plain, Join, Without;
  }

  lemma OtherDirLeft(t: Table, u: Table, i: nat, j: nat, path: string, d: nat)
    requires Gone(t, u, i, j, path) && Distinct(t) && PathsOk(t) && DirsOk(t) && path != "/"
    requires t.inodes[j].path == Parent(path) && LiveAt(u, d) && d != j && u.inodes[d].kind == Dir
    ensures DirOk(u, d)
  {
    GoneChildren(t, u, i, j, path);
    OnePlace(path, u.inodes[d].path);
    hide IsChild, Parent, Base, DirOk, HasPlace, Lines, Text;
    assert LiveAt(t, d) && LiveAt(t, j);
    DirLeft(t, u, d);
  }

  lemma GoneDirs(t: Table, u: Table, i: nat, j: nat, path: string)
    requires Gone(t, u, i, j, path) && Distinct(t) && PathsOk(t) && DirsOk(t) && path != "/"
    requires t.inodes[j].path == Parent(path) && t.inodes[j].kind == Dir
    ensures DirsOk(u)
  {
    hide PathsOk, IsChild, Parent, Base, DirOk, HasPlace, Distinct, Lines, Text;
    GoneChildren(t, u, i, j, path);
    OnePlace(path, Parent(path));
    EntryRemoved(t, u, j, Base(path));
    forall d | LiveAt(u, d) && d != j && u.inodes[d].kind == Dir ensures DirOk(u, d) {
      OtherDirLeft(t, u, i, j, path, d);
    }
  }

  lemma NotItsParent(t: Table, a: nat, path: string)
    requires Sized(t) && LiveAt(t, a) && t.inodes[a].path != "" && t.inodes[a].path[0] == '/'
    requires !IsChild(t, path, Base(t.inodes[a].path))
    ensures t.inodes[a].path == "/" || Parent(t.inodes[a].path) != path
  {
    hide Parent, Base;
    assert !HasPlace(t.inodes[a].path, path, Base(t.inodes[a].path));
  }

  lemma GonePaths(t: Table, u: Table, i: nat, j: nat, path: string)
    requires Gone(t, u, i, j, path) && PathsOk(t) && Distinct(t) && ParentsOk(t)
    requires forall n :: !IsChild(t, path, n)
    ensures PathsOk(u) && Distinct(u) && ParentsOk(u)
  {
    GoneHas(t, u, i, j, path);
    assert forall a :: LiveAt(u, a) ==> LiveAt(t, a) && u.inodes[a].path == t.inodes[a].path;
    forall a | LiveAt(u, a) ensures ParentOk(u, u.inodes[a].path) {
      hide Parent, Base, Has, IsChild;
      assert ParentOk(t, t.inodes[a].path) && t.inodes[a].path != "" && t.inodes[a].path[0] == '/';
      NotItsParent(t, a, path);
    }
  }

  /** Taking out a path without children: exactly that path goes, and the parent lists the other names. */
  lemma RemoveCorrect(t: Table, path: string, i: nat)
    requires Inv(t) && LiveAt(t, i) && t.inodes[i].path == path && path != "/" && forall n :: !IsChild(t, path, n)
    ensures path != "" && path[0] == '/'
    ensures var u := RemoveInode(t, path, i);
            && Inv(u) && (forall p, k :: Has(u, p, k) <==> Has(t, p, k) && p != path)
            && Listing(u, Parent(path)) == Without(Listing(t, Parent(path)), Base(path))
  {
    assert Absolute(path) && path[0] == '/' && ParentOk(t, path);
    hide Parent, Base, Absolute, RemoveInode, PathsOk, Distinct, ParentsOk, DirsOk, DirOk, IsChild, Listing, Count,
         HasPlace;
    var j := RemoveShape(t, path, i);
    var u := RemoveInode(t, path, i);
    CountUpdate(t.live, i, false);
    assert Sized(u) && u.amount == Count(u.live);
    hide Gone;
    GoneHas(t, u, i, j, path);
    GoneDirs(t, u, i, j, path);
    GonePaths(t, u, i, j, path);
    GoneListing(t, u, i, j, path);
    hide Has;
  }

  lemma GoneListing(t: Table, u: Table, i: nat, j: nat, path: string)
    requires Gone(t, u, i, j, path) && Distinct(t) && Distinct(u) && DirsOk(t) && PathsOk(t) && path != "/"
    requires t.inodes[j].path == Parent(path) && t.inodes[j].kind == Dir
    ensures Listing(u, Parent(path)) == Without(Listing(t, Parent(path)), Base(path))
  {
    hide PathsOk, IsChild, Parent, Base, DirOk, HasPlace, Distinct, Lines, Text, Search;
    SearchIs(t, j);
    SearchIs(u, j);
    GoneChildren(t, u, i, j, path);
    OnePlace(path, Parent(path));
    EntryRemoved(t, u, j, Base(path));
  }
}
