/** The inode table as a value, the operations on paths over it, and what a sound table is. */
module FsModel {
  import opened CString
  import opened DirectoryText

  const INODES_AMOUNT := 1024
  const MAX_PATH := 256
  const INITIAL_CONTENT_LENGTH := 1024

  const ENOENT := 2
  const ENOTDIR := 20
  const EISDIR := 21
  const ENOSPC := 28
  const ENAMETOOLONG := 36
  const ENOTEMPTY := 39
  /** fs.h's ERROR. */
  const ERROR := -1

  datatype Kind = File | Dir

  datatype Inode = Inode(path: string, content: string, size: int, kind: Kind, mode: int)

  /** superblock_t; `live` is inode_bitmap. */
  datatype Table = Table(inodes: seq<Inode>, live: seq<bool>, amount: int)

  predicate Sized(t: Table) { |t.inodes| == INODES_AMOUNT && |t.live| == INODES_AMOUNT }

  predicate LiveAt(t: Table, i: int)
    requires Sized(t)
  {
    0 <= i < INODES_AMOUNT && t.live[i]
  }

  // ---------------------------------------------------------------- paths

  /** What FUSE passes: "/" or slash-separated non-empty names after a leading slash. */
  predicate Absolute(path: string) {
    && path != "" && path[0] == '/' && '\0' !in path
    && (|path| > 1 ==> path[|path| - 1] != '/')
    && forall k :: 0 <= k < |path| - 1 ==> !(path[k] == '/' && path[k + 1] == '/')
  }

  /** strrchr(path, '/'). */
  function LastSlash(path: string): (k: nat)
    requires path != "" && path[0] == '/'
    ensures k < |path| && path[k] == '/' && '/' !in path[k + 1..]
    decreases |path|
  {
    if path[|path| - 1] == '/' then |path| - 1
    else
      var k := LastSlash(path[..|path| - 1]);
      assert path[k + 1..] == path[..|path| - 1][k + 1..] + [path[|path| - 1]];
      k
  }

  function Parent(path: string): string
    requires path != "" && path[0] == '/'
  {
    if LastSlash(path) == 0 then path[..1] else path[..LastSlash(path)]
  }

  function Base(path: string): string
    requires path != "" && path[0] == '/'
  {
    path[LastSlash(path) + 1..]
  }

  // ---------------------------------------------------------------- fs.c

  /** search_inode. */
  function Search(t: Table, path: string, from: nat := 0): (r: int)
    requires Sized(t) && from <= INODES_AMOUNT
    ensures r == ERROR || (from <= r && LiveAt(t, r) && t.inodes[r].path == path)
    ensures r == ERROR ==> forall i :: from <= i && LiveAt(t, i) ==> t.inodes[i].path != path
    decreases INODES_AMOUNT - from
  {
    if from == INODES_AMOUNT then ERROR
    else if t.live[from] && t.inodes[from].path == path then from
    else Search(t, path, from + 1)
  }

  /** search_free_inode. */
  function SearchFree(t: Table, from: nat := 0): (r: int)
    requires Sized(t) && from <= INODES_AMOUNT
    ensures r == -1 || (from <= r < INODES_AMOUNT && !t.live[r])
    ensures r == -1 ==> forall i :: from <= i < INODES_AMOUNT ==> t.live[i]
    decreases INODES_AMOUNT - from
  {
    if from == INODES_AMOUNT then -1 else if !t.live[from] then from else SearchFree(t, from + 1)
  }

  function CreateInode(t: Table, path: string, mode: int, kind: Kind): (Table, int)
    requires Sized(t)
  {
    if |path| >= MAX_PATH then (t, -ENAMETOOLONG)
    else if SearchFree(t) == -1 then (t, -ENOSPC)
    else
      var i := SearchFree(t);
      (Table(t.inodes[i := Inode(path, "", 0, kind, mode)], t.live[i := true], t.amount + 1), i)
  }

  /** get_parent, as an index; ERROR for its NULL. */
  function GetParent(t: Table, path: string): int
    requires Sized(t) && path != "" && path[0] == '/'
  {
    if |path| == 1 then ERROR else Search(t, Parent(path))
  }

  /** add_dentry_to_content. */
  function AddEntry(inode: Inode, name: string): Inode {
    var text, entry := Text(inode.content), name + "\n";
    inode.(content := text + entry,
           size := if |text| + |entry| > inode.size then inode.size + |entry| + INITIAL_CONTENT_LENGTH else inode.size)
  }

  function AddToParent(t: Table, path: string): (Table, int)
    requires Sized(t) && path != "" && path[0] == '/'
  {
    var j := GetParent(t, path);
    if j == ERROR then (t, -ERROR)
    else if t.inodes[j].kind != Dir then (t, -ENOTDIR)
    else (t.(inodes := t.inodes[j := AddEntry(t.inodes[j], Base(path))]), 0)
  }

  /** The loop of remove_inode: the entries other than `name`, added one by one. */
  function Rebuild(inode: Inode, entries: seq<string>, name: string): Inode
    decreases |entries|
  {
    if entries == [] then inode
    else Rebuild(if entries[0] != name then AddEntry(inode, entries[0]) else inode, entries[1..], name)
  }

  function RemoveInode(t: Table, path: string, i: nat): (u: Table)
    requires Sized(t) && i < INODES_AMOUNT && path != "" && path[0] == '/'
    ensures Sized(u)
  {
    var freed := t.(live := t.live[i := false]);
    var j := GetParent(freed, path);
    if j == ERROR then freed
    else
      var parent := freed.inodes[j];
      freed.(inodes := freed.inodes[j := Rebuild(parent.(content := ""), Lines(Text(parent.content)), Base(path))],
         amount := t.amount - 1)
  }

  // ---------------------------------------------------------------- fisopfs.c

  /** mkdir and create. */
  function Make(t: Table, path: string, mode: int, kind: Kind): (r: (Table, int))
    requires Sized(t) && path != "" && path[0] == '/'
    ensures Sized(r.0)
  {
    var (u, i) := CreateInode(t, path, mode, kind);
    if i < 0 then (t, i)
    else
      var (v, result) := AddToParent(u, path);
      (v, if result < 0 then result else 0)
  }

  function Unlink(t: Table, path: string): (r: (Table, int))
    requires Sized(t) && path != "" && path[0] == '/'
    ensures Sized(r.0)
  {
    var i := Search(t, path);
    if i == ERROR then (t, -ENOENT)
    else if t.inodes[i].kind != File then (t, -EISDIR)
    else (RemoveInode(t, path, i), 0)
  }

  function Rmdir(t: Table, path: string): (r: (Table, int))
    requires Sized(t) && path != "" && path[0] == '/'
    ensures Sized(r.0)
  {
    var i := Search(t, path);
    if i == ERROR then (t, -ENOENT)
    else if t.inodes[i].kind != Dir then (t, -ENOTDIR)
    else if |Text(t.inodes[i].content)| > 0 then (t, -ENOTEMPTY)
    else (RemoveInode(t, path, i), 0)
  }

  /** The entries readdir finds in the text of inode `i`. */
  function Names(t: Table, i: nat): seq<string>
    requires Sized(t) && i < INODES_AMOUNT
  {
    Lines(Text(t.inodes[i].content))
  }

  /** What readdir hands to its filler, and its result. */
  function Readdir(t: Table, path: string): (seq<string>, int)
    requires Sized(t)
  {
    var i := Search(t, path);
    if i == ERROR then ([".", ".."], -ENOENT)
    else if t.inodes[i].kind != Dir then ([".", ".."], -ENOTDIR)
    else ([".", ".."] + Names(t, i), 0)
  }

  /** The entries after "." and "..". */
  function Listing(t: Table, path: string): seq<string>
    requires Sized(t)
  {
    var i := Search(t, path);
    if i == ERROR || t.inodes[i].kind != Dir then [] else Names(t, i)
  }

  // ---------------------------------------------------------------- a sound table

  function Count(live: seq<bool>): nat {
    if live == [] then 0 else (if live[0] then 1 else 0) + Count(live[1..])
  }

  ghost predicate Has(t: Table, path: string, kind: Kind)
    requires Sized(t)
  {
    exists i :: LiveAt(t, i) && t.inodes[i].path == path && t.inodes[i].kind == kind
  }

  ghost predicate Exists(t: Table, path: string)
    requires Sized(t)
  {
    exists i :: LiveAt(t, i) && t.inodes[i].path == path
  }

  /** Some live path other than the root has parent `dir` and base name `name`. */
  ghost predicate IsChild(t: Table, dir: string, name: string)
    requires Sized(t)
  {
    exists i :: LiveAt(t, i) && HasPlace(t.inodes[i].path, dir, name)
  }

  ghost predicate HasChildren(t: Table, dir: string)
    requires Sized(t)
  {
    exists n :: IsChild(t, dir, n)
  }

  predicate HasPlace(path: string, dir: string, name: string) {
    path != "" && path[0] == '/' && path != "/" && Parent(path) == dir && Base(path) == name
  }

  /** The text of directory `j` lists its live children, each once. */
  ghost predicate DirOk(t: Table, j: nat)
    requires Sized(t) && j < INODES_AMOUNT
  {
    var d := t.inodes[j];
    && Terminated(Text(d.content)) && |Text(d.content)| <= d.size && NoDup(Lines(Text(d.content)))
    && forall n :: n in Lines(Text(d.content)) <==> IsChild(t, d.path, n)
  }

  ghost predicate PathsOk(t: Table)
    requires Sized(t)
  {
    forall i :: LiveAt(t, i) ==> Absolute(t.inodes[i].path) && |t.inodes[i].path| < MAX_PATH
  }

  ghost predicate Distinct(t: Table)
    requires Sized(t)
  {
    forall i, j :: LiveAt(t, i) && LiveAt(t, j) && i != j ==> t.inodes[i].path != t.inodes[j].path
  }

  ghost predicate ParentOk(t: Table, path: string)
    requires Sized(t)
  {
    path == "/" || (path != "" && path[0] == '/' && Has(t, Parent(path), Dir))
  }

  ghost predicate ParentsOk(t: Table)
    requires Sized(t)
  {
    forall i :: LiveAt(t, i) ==> ParentOk(t, t.inodes[i].path)
  }

  ghost predicate DirsOk(t: Table)
    requires Sized(t)
  {
    forall j :: LiveAt(t, j) && t.inodes[j].kind == Dir ==> DirOk(t, j)
  }

  ghost predicate Inv(t: Table) {
    && Sized(t) && t.amount == Count(t.live) && Has(t, "/", Dir)
    && PathsOk(t) && Distinct(t) && ParentsOk(t) && DirsOk(t)
  }

  // ---------------------------------------------------------------- facts about paths

  /** A path is its parent, a slash unless the parent is the root, and its base name. */
  lemma PlaceOf(path: string)
    requires Absolute(path) && path != "/"
    ensures |path| > 1 && path == (if Parent(path) == "/" then "/" else Parent(path) + "/") + Base(path)
    ensures Absolute(Parent(path)) && |Parent(path)| < |path|
  {
    var k, p := LastSlash(path), Parent(path);
    assert path == path[..k] + [path[k]] + path[k + 1..];
    assert forall a :: 0 < a < |path| ==> !(path[a - 1] == '/' && path[a] == '/');
    if k == 0 {
      assert path[..1] == "/";
    } else {
      assert p[0] == '/' && p[|p| - 1] == path[k - 1];
      forall i | 0 <= i < |p| - 1 ensures !(p[i] == '/' && p[i + 1] == '/') {
        assert p[i] == path[i] && p[i + 1] == path[i + 1];
      }
    }
  }

  lemma SamePlace(p: string, q: string)
    requires Absolute(p) && Absolute(q) && p != "/" && q != "/" && Parent(p) == Parent(q) && Base(p) == Base(q)
    ensures p == q
  {
    PlaceOf(p);
    PlaceOf(q);
  }

  lemma {:induction false} CountUpdate(live: seq<bool>, i: nat, b: bool)
    requires i < |live|
    ensures Count(live[i := b]) == Count(live) + (if b then 1 else 0) - (if live[i] then 1 else 0)
  {
    if i == 0 {
      assert live[i := b][1..] == live[1..];
    } else {
      CountUpdate(live[1..], i - 1, b);
      assert live[i := b][1..] == live[1..][i - 1 := b];
    }
  }
}
