/** The results of the path operations, when they keep the table sound, and whole runs of them against a plain
    tree of paths. */
module FsRuns {
  import opened CString
  import opened DirectoryText
  import opened FsModel
  import opened FsProofs

  // ---------------------------------------------------------------- exactly when

  lemma Untouched(t: Table, path: string, mode: int, kind: Kind)
    requires Sized(t) && Absolute(path) && (|path| >= MAX_PATH || SearchFree(t) == -1)
    ensures Make(t, path, mode, kind).0 == t
  {
    hide Parent, Base, Search, SearchFree;
  }

  /** A slot was free: the new inode is in the table, whatever became of the directory entry. */
  lemma MakeAdds(t: Table, path: string, mode: int, kind: Kind)
    requires Sized(t) && Absolute(path) && |path| < MAX_PATH && SearchFree(t) != -1
    ensures var (u, result) := Make(t, path, mode, kind);
            && Sized(u) && u.live == t.live[SearchFree(t) := true] && u.inodes[SearchFree(t)].path == path
            && (forall k :: LiveAt(t, k) ==>
                  u.inodes[k].path == t.inodes[k].path && u.inodes[k].kind == t.inodes[k].kind)
            && u.inodes[SearchFree(t)].kind == kind
  {
    hide Parent, Base, Search, SearchFree, Text;
  }

  /** mkdir and create keep the table sound exactly when they refuse for want of room, or the path is new, its
      parent is a directory and its name holds no newline. */
  lemma MakeKeepsIff(t: Table, path: string, mode: int, kind: Kind)
    requires Inv(t) && Absolute(path)
    ensures path != "" && path[0] == '/'
    ensures Inv(Make(t, path, mode, kind).0) <==> |path| >= MAX_PATH || SearchFree(t) == -1 || CanMake(t, path)
  {
    if |path| >= MAX_PATH || SearchFree(t) == -1 {
      Untouched(t, path, mode, kind);
    } else if CanMake(t, path) {
      MakeCorrect(t, path, mode, kind);
    } else {
      MakeAdds(t, path, mode, kind);
      var u := Make(t, path, mode, kind).0;
      if Inv(u) { MakeBreaks(t, u, SearchFree(t), path); }
    }
  }

  lemma MakeBreaks(t: Table, u: Table, i: nat, path: string)
    requires Inv(t) && Inv(u) && Absolute(path) && i < INODES_AMOUNT && !t.live[i] && u.live == t.live[i := true]
    requires u.inodes[i].path == path
    requires forall k :: LiveAt(t, k) ==> u.inodes[k].path == t.inodes[k].path && u.inodes[k].kind == t.inodes[k].kind
    ensures CanMake(t, path)
  {
    hide Parent, Base, Absolute, DirsOk;
    assert path != "" && path[0] == '/';
    assert LiveAt(u, i);
    assert forall k :: LiveAt(t, k) ==> LiveAt(u, k) && k != i;
    assert !Exists(t, path);
    assert path != "/";
    assert ParentOk(u, path);
    ParentFromAfter(t, u, i, path);
    ChildName(u, i, path);
  }

  lemma ParentFromAfter(t: Table, u: Table, i: nat, path: string)
    requires Sized(t) && Sized(u) && Absolute(path) && path != "/" && Has(u, Parent(path), Dir)
    requires i < INODES_AMOUNT && u.live == t.live[i := true] && u.inodes[i].path == path
    requires forall k :: LiveAt(t, k) ==> u.inodes[k].path == t.inodes[k].path && u.inodes[k].kind == t.inodes[k].kind
    ensures Has(t, Parent(path), Dir)
  {
    hide Parent, Base, Absolute;
    PlaceOf(path);
    var k :| LiveAt(u, k) && u.inodes[k].path == Parent(path) && u.inodes[k].kind == Dir;
    assert LiveAt(t, k);
  }

  /** The name of a live path is an entry of its directory, so it is one line. */
  lemma ChildName(u: Table, i: nat, path: string)
    requires Inv(u) && LiveAt(u, i) && u.inodes[i].path == path && path != "/" && path != "" && path[0] == '/'
    ensures '\n' !in Base(path)
  {
    hide Parent, Base, Absolute, Text, Lines;
    assert ParentOk(u, path);
    var j :| LiveAt(u, j) && u.inodes[j].path == Parent(path) && u.inodes[j].kind == Dir;
    assert HasPlace(u.inodes[i].path, Parent(path), Base(path));
    assert IsChild(u, Parent(path), Base(path));
    assert DirOk(u, j);
    LinesPlain(Text(u.inodes[j].content));
  }

  lemma KindIs(t: Table, i: nat)
    requires Sized(t) && Distinct(t) && LiveAt(t, i)
    ensures forall k :: Has(t, t.inodes[i].path, k) <==> k == t.inodes[i].kind
  {
  }

  lemma ParentAfterCreate(t: Table, path: string, mode: int, kind: Kind, dir: string)
    requires Sized(t) && Distinct(t) && |path| < MAX_PATH && SearchFree(t) != -1 && dir != path
    ensures var u := CreateInode(t, path, mode, kind).0; var r := Search(u, dir);
            (r == ERROR <==> !Exists(t, dir)) && (r != ERROR ==> Has(t, dir, u.inodes[r].kind))
  {
    hide Search, SearchFree;
    var u := CreateInode(t, path, mode, kind).0;
    assert forall k :: LiveAt(t, k) ==> LiveAt(u, k) && u.inodes[k] == t.inodes[k];
    var r := Search(u, dir);
    if r != ERROR {
      assert LiveAt(t, r) && t.inodes[r].path == dir;
      KindIs(t, r);
    }
  }

  lemma OneKind(t: Table, path: string)
    requires Sized(t) && Distinct(t)
    ensures Has(t, path, File) ==> Exists(t, path) && !Has(t, path, Dir)
  {
  }

  lemma AddResult(u: Table, path: string)
    requires Sized(u) && path != "" && path[0] == '/'
    ensures var r := GetParent(u, path);
            AddToParent(u, path).1 == if r == ERROR then 1 else if u.inodes[r].kind == Dir then 0 else -ENOTDIR
    ensures GetParent(u, path) == if |path| == 1 then ERROR else Search(u, Parent(path))
  {
    hide Search, Parent, Base, AddEntry;
  }

  /** What mkdir and create report once a slot is free: -ENOTDIR exactly when the parent is a file, and success
      otherwise, even when the parent does not exist. */
  lemma MakeResult(t: Table, path: string, mode: int, kind: Kind)
    requires Inv(t) && Absolute(path) && |path| < MAX_PATH && SearchFree(t) != -1
    ensures path != "" && path[0] == '/'
    ensures var result := Make(t, path, mode, kind).1;
            && (result == -ENOTDIR <==> path != "/" && Has(t, Parent(path), File))
            && (result == 0 <==> path == "/" || !Has(t, Parent(path), File))
  {
    assert path[0] == '/';
    hide Parent, Base, Absolute, Search, SearchFree, Has, Exists, AddEntry, Distinct, PathsOk, ParentsOk, DirsOk,
         CreateInode, Make, AddToParent, GetParent;
    MakeIs(t, path, mode, kind);
    AddResult(CreateInode(t, path, mode, kind).0, path);
    if path != "/" {
      PlaceOf(path);
      ParentAfterCreate(t, path, mode, kind, Parent(path));
      OneKind(t, Parent(path));
    }
  }

  lemma FileNoHeirs(t: Table, i: nat)
    requires Sized(t) && Distinct(t) && ParentsOk(t) && LiveAt(t, i) && t.inodes[i].kind == File
    ensures forall n :: !IsChild(t, t.inodes[i].path, n)
  {
    KindIs(t, i);
    hide Parent, Base, Has;
    forall a, n | LiveAt(t, a) ensures !HasPlace(t.inodes[a].path, t.inodes[i].path, n) {
      assert ParentOk(t, t.inodes[a].path);
    }
  }

  lemma EmptyDirNoHeirs(t: Table, i: nat)
    requires Inv(t) && LiveAt(t, i) && t.inodes[i].kind == Dir
    ensures Text(t.inodes[i].content) == "" <==> forall n :: !IsChild(t, t.inodes[i].path, n)
  {
    hide IsChild, PathsOk, ParentsOk;
    assert DirOk(t, i);
    var text := Text(t.inodes[i].content);
    JoinOfLines(text);
    if text != "" {
      assert Lines(text) != [];
      assert Lines(text)[0] in Lines(text);
    }
  }

  lemma RemoveAmount(t: Table, path: string, i: nat)
    requires Inv(t) && LiveAt(t, i) && t.inodes[i].path == path && path != "/"
    ensures path != "" && path[0] == '/' && RemoveInode(t, path, i).amount == t.amount - 1
  {
    assert Absolute(path) && ParentOk(t, path) && path[0] == '/';
    hide Absolute, Parent, Base, PathsOk, ParentsOk, DirsOk, Has, RemoveInode;
    var j := RemoveShape(t, path, i);
  }

  /** unlink always keeps the table sound; it removes exactly the files. */
  lemma UnlinkCorrect(t: Table, path: string)
    requires Inv(t) && Absolute(path)
    ensures path != "" && path[0] == '/'
    ensures var (u, result) := Unlink(t, path);
            && Inv(u)
            && result == (if !Exists(t, path) then -ENOENT else if Has(t, path, Dir) then -EISDIR else 0)
            && (result != 0 ==> u == t)
            && (result == 0 ==> u.amount == t.amount - 1 && forall p, k :: Has(u, p, k) <==> Has(t, p, k) && p != path)
  {
    assert path[0] == '/';
    hide Parent, Base, Search, Absolute, PathsOk, DirsOk;
    var i := Search(t, path);
    if i != ERROR {
      KindIs(t, i);
      if t.inodes[i].kind == File {
        FileNoHeirs(t, i);
        assert path != "/" by { assert Has(t, "/", Dir); }
        hide Distinct, ParentsOk;
        RemoveCorrect(t, path, i);
        RemoveAmount(t, path, i);
      }
    }
  }

  /** rmdir of anything but the root: it removes exactly the empty directories. */
  lemma RmdirCorrect(t: Table, path: string)
    requires Inv(t) && Absolute(path) && path != "/"
    ensures path != "" && path[0] == '/'
    ensures var (u, result) := Rmdir(t, path);
            && Inv(u)
            && result == (if !Exists(t, path) then -ENOENT else if Has(t, path, File) then -ENOTDIR
                          else if HasChildren(t, path) then -ENOTEMPTY else 0)
            && (result != 0 ==> u == t)
            && (result == 0 ==> u.amount == t.amount - 1 && forall p, k :: Has(u, p, k) <==> Has(t, p, k) && p != path)
  {
    assert path[0] == '/';
    hide Parent, Base, Search, Absolute, PathsOk, DirsOk, IsChild, ParentsOk;
    var i := Search(t, path);
    if i != ERROR {
      KindIs(t, i);
      if t.inodes[i].kind == Dir {
        EmptyDirNoHeirs(t, i);
        hide Distinct;
        if Text(t.inodes[i].content) == "" {
          RemoveCorrect(t, path, i);
          RemoveAmount(t, path, i);
        }
      }
    }
  }

  /** rmdir breaks the table exactly when it removes an empty root: the root goes, inode_amount does not. */
  lemma RmdirKeepsIff(t: Table, path: string)
    requires Inv(t) && Absolute(path)
    ensures path != "" && path[0] == '/'
    ensures Inv(Rmdir(t, path).0) <==> path != "/" || HasChildren(t, path)
  {
    assert path[0] == '/';
    if path != "/" {
      RmdirCorrect(t, path);
    } else {
      hide Search, PathsOk, DirsOk, IsChild, ParentsOk;
      var i := Search(t, "/");
      KindIs(t, i);
      EmptyDirNoHeirs(t, i);
      if Text(t.inodes[i].content) == "" { RootGone(t, i); }
    }
  }

  lemma RootGone(t: Table, i: nat)
    requires Sized(t) && Distinct(t) && LiveAt(t, i) && t.inodes[i].path == "/"
    ensures !Inv(RemoveInode(t, "/", i))
  {
    var u := RemoveInode(t, "/", i);
    assert u == t.(live := t.live[i := false]);
    assert forall k :: LiveAt(u, k) ==> LiveAt(t, k);
    assert !Has(u, "/", Dir);
  }

  /** What readdir lists is, each once, the base names of the live children. */
  lemma ReaddirCorrect(t: Table, path: string)
    requires Inv(t)
    ensures var (entries, result) := Readdir(t, path);
            && result == (if !Exists(t, path) then -ENOENT else if Has(t, path, File) then -ENOTDIR else 0)
            && |entries| >= 2 && entries[..2] == [".", ".."]
            && (result == 0 ==> entries[2..] == Listing(t, path) && NoDup(entries[2..]) &&
                                forall n :: n in entries[2..] <==> IsChild(t, path, n))
  {
    hide Search, PathsOk, ParentsOk, IsChild, Lines, Text;
    var i := Search(t, path);
    if i != ERROR {
      KindIs(t, i);
      if t.inodes[i].kind == Dir {
        assert DirOk(t, i);
        assert ([".", ".."] + Names(t, i))[2..] == Names(t, i);
      }
    }
  }

  // ---------------------------------------------------------------- whole runs

  datatype Op =
    | MakeDir(path: string, mode: int)
    | CreateFile(path: string, mode: int)
    | UnlinkFile(path: string)
    | RemoveDir(path: string)

  /** The same operations on a plain map from paths to kinds. */
  function TreeStep(tree: map<string, Kind>, op: Op): (map<string, Kind>, int) {
    match op
    case MakeDir(path, _) => TreeMake(tree, path, Dir)
    case CreateFile(path, _) => TreeMake(tree, path, File)
    case UnlinkFile(path) =>
      if path !in tree then (tree, -ENOENT) else if tree[path] == Dir then (tree, -EISDIR) else (tree - {path}, 0)
    case RemoveDir(path) =>
      if path !in tree then (tree, -ENOENT)
      else if tree[path] == File then (tree, -ENOTDIR)
      else if TreeHeirs(tree, path) then (tree, -ENOTEMPTY)
      else (tree - {path}, 0)
  }

  predicate TreeHeirs(tree: map<string, Kind>, path: string) {
    exists q :: q in tree && HasPlace(q, path, BaseOf(q))
  }

  function BaseOf(path: string): string { if path != "" && path[0] == '/' then Base(path) else "" }

  function TreeMake(tree: map<string, Kind>, path: string, kind: Kind): (map<string, Kind>, int) {
    if |path| >= MAX_PATH then (tree, -ENAMETOOLONG)
    else if |tree| >= INODES_AMOUNT then (tree, -ENOSPC)
    else (tree[path := kind], 0)
  }

  /** What callers must keep to: an absolute path; for a new one, a free place in an existing directory and a
      one-line name; for rmdir, not the root. */
  predicate Allowed(tree: map<string, Kind>, op: Op) {
    && Absolute(op.path)
    && match op
       case MakeDir(path, _) => NewPlace(tree, path)
       case CreateFile(path, _) => NewPlace(tree, path)
       case UnlinkFile(_) => true
       case RemoveDir(path) => path != "/"
  }

  predicate NewPlace(tree: map<string, Kind>, path: string)
    requires Absolute(path)
  {
    |path| >= MAX_PATH || |tree| >= INODES_AMOUNT ||
    (path !in tree && Parent(path) in tree && tree[Parent(path)] == Dir && '\n' !in Base(path))
  }

  /** The table holds exactly the paths of the tree. */
  ghost predicate Holds(t: Table, tree: map<string, Kind>)
    requires Sized(t)
  {
    |tree| == t.amount && forall p, k :: Has(t, p, k) <==> p in tree && tree[p] == k
  }

  function Apply(t: Table, op: Op): (r: (Table, int))
    requires Sized(t) && op.path != "" && op.path[0] == '/'
    ensures Sized(r.0)
  {
    match op
    case MakeDir(path, mode) => Make(t, path, mode, Dir)
    case CreateFile(path, mode) => Make(t, path, mode, File)
    case UnlinkFile(path) => Unlink(t, path)
    case RemoveDir(path) => Rmdir(t, path)
  }

  lemma {:induction false} CountIsFull(live: seq<bool>)
    ensures Count(live) <= |live|
    ensures Count(live) == |live| <==> forall i :: 0 <= i < |live| ==> live[i]
  {
    if live != [] {
      CountIsFull(live[1..]);
      assert forall i :: 0 < i < |live| ==> live[i] == live[1..][i - 1];
    }
  }

  lemma FullWhen(t: Table)
    requires Inv(t)
    ensures SearchFree(t) == -1 <==> t.amount >= INODES_AMOUNT
  {
    CountIsFull(t.live);
  }

  lemma ExistsHas(t: Table, path: string)
    requires Sized(t)
    ensures Exists(t, path) <==> Has(t, path, File) || Has(t, path, Dir)
  {
    if Exists(t, path) {
      var i :| LiveAt(t, i) && t.inodes[i].path == path;
      assert t.inodes[i].kind == File || t.inodes[i].kind == Dir;
    }
  }

  lemma TreeAdd(tree: map<string, Kind>, path: string, kind: Kind)
    requires path !in tree
    ensures |tree[path := kind]| == |tree| + 1
  {
    assert tree[path := kind] - {path} == tree;
  }

  lemma TreeRemove(tree: map<string, Kind>, path: string)
    requires path in tree
    ensures |tree - {path}| == |tree| - 1
  {
    assert (tree - {path}).Keys == tree.Keys - {path};
    assert |(tree - {path}).Keys| == |tree.Keys| - 1;
  }

  lemma HoldsAdd(t: Table, u: Table, tree: map<string, Kind>, path: string, kind: Kind)
    requires Sized(t) && Sized(u) && Holds(t, tree) && path !in tree && u.amount == t.amount + 1
    requires forall p, k :: Has(u, p, k) <==> Has(t, p, k) || (p == path && k == kind)
    ensures Holds(u, tree[path := kind])
  {
    hide Has;
    TreeAdd(tree, path, kind);
  }

  lemma HoldsRemove(t: Table, u: Table, tree: map<string, Kind>, path: string)
    requires Sized(t) && Sized(u) && Holds(t, tree) && path in tree && u.amount == t.amount - 1
    requires forall p, k :: Has(u, p, k) <==> Has(t, p, k) && p != path
    ensures Holds(u, tree - {path})
  {
    hide Has;
    TreeRemove(tree, path);
  }

  lemma MakeRefines(t: Table, tree: map<string, Kind>, path: string, mode: int, kind: Kind)
    requires Inv(t) && Holds(t, tree) && Absolute(path) && NewPlace(tree, path)
    ensures path != "" && path[0] == '/'
    ensures var (u, result) := Make(t, path, mode, kind);
            Inv(u) && Holds(u, TreeMake(tree, path, kind).0) && result == TreeMake(tree, path, kind).1
  {
    assert path[0] == '/';
    FullWhen(t);
    hide Parent, Base, Absolute, SearchFree, Has, PathsOk, ParentsOk, DirsOk, Distinct, Count;
    if |path| >= MAX_PATH || |tree| >= INODES_AMOUNT {
      Untouched(t, path, mode, kind);
    } else {
      ExistsHas(t, path);
      hide Exists;
      assert CanMake(t, path);
      MakeAmount(t, path, mode, kind);
      hide Make, CanMake;
      MakeCorrect(t, path, mode, kind);
      HoldsAdd(t, Make(t, path, mode, kind).0, tree, path, kind);
    }
  }

  lemma MakeAmount(t: Table, path: string, mode: int, kind: Kind)
    requires Sized(t) && path != "" && path[0] == '/' && |path| < MAX_PATH && SearchFree(t) != -1
    ensures Make(t, path, mode, kind).0.amount == t.amount + 1
  {
    hide Parent, Base, Search, SearchFree;
  }

  lemma HeirsInTree(t: Table, tree: map<string, Kind>, path: string)
    requires Sized(t) && Holds(t, tree)
    ensures HasChildren(t, path) <==> TreeHeirs(tree, path)
  {
    if n :| IsChild(t, path, n) {
      var a :| LiveAt(t, a) && HasPlace(t.inodes[a].path, path, n);
      var q := t.inodes[a].path;
      assert Has(t, q, t.inodes[a].kind);
      assert q in tree && HasPlace(q, path, BaseOf(q));
    }
    if q :| q in tree && HasPlace(q, path, BaseOf(q)) {
      assert Has(t, q, tree[q]);
      var a :| LiveAt(t, a) && t.inodes[a].path == q && t.inodes[a].kind == tree[q];
      assert IsChild(t, path, BaseOf(q));
    }
  }

  lemma UnlinkRefines(t: Table, tree: map<string, Kind>, path: string)
    requires Inv(t) && Holds(t, tree) && Absolute(path)
    ensures path != "" && path[0] == '/'
    ensures var (u, result) := Unlink(t, path);
            && Inv(u) && Holds(u, TreeStep(tree, UnlinkFile(path)).0) && result == TreeStep(tree, UnlinkFile(path)).1
  {
    UnlinkCorrect(t, path);
    ExistsHas(t, path);
    hide Unlink, Has, Exists, Inv;
    if path in tree && tree[path] == File {
      HoldsRemove(t, Unlink(t, path).0, tree, path);
    }
  }

  lemma RmdirRefines(t: Table, tree: map<string, Kind>, path: string)
    requires Inv(t) && Holds(t, tree) && Absolute(path) && path != "/"
    ensures path != "" && path[0] == '/'
    ensures var (u, result) := Rmdir(t, path);
            && Inv(u) && Holds(u, TreeStep(tree, RemoveDir(path)).0) && result == TreeStep(tree, RemoveDir(path)).1
  {
    RmdirCorrect(t, path);
    ExistsHas(t, path);
    HeirsInTree(t, tree, path);
    hide Rmdir, Has, Exists, Inv, HasChildren, TreeHeirs;
    if Rmdir(t, path).1 == 0 {
      HoldsRemove(t, Rmdir(t, path).0, tree, path);
    }
  }

  lemma StepRefines(t: Table, tree: map<string, Kind>, op: Op)
    requires Inv(t) && Holds(t, tree) && Allowed(tree, op)
    ensures op.path != "" && op.path[0] == '/'
    ensures var (u, result) := Apply(t, op);
            Inv(u) && Holds(u, TreeStep(tree, op).0) && result == TreeStep(tree, op).1
  {
    hide Inv, Holds, Make, TreeMake, Unlink, Rmdir;
    match op
    case MakeDir(path, mode) => MakeRefines(t, tree, path, mode, Dir);
    case CreateFile(path, mode) => MakeRefines(t, tree, path, mode, File);
    case UnlinkFile(path) => UnlinkRefines(t, tree, path);
    case RemoveDir(path) => RmdirRefines(t, tree, path);
  }

  predicate AllowedRun(tree: map<string, Kind>, ops: seq<Op>)
    decreases |ops|
  {
    ops == [] || (Allowed(tree, ops[0]) && AllowedRun(TreeStep(tree, ops[0]).0, ops[1..]))
  }

  /** The results of the operations of a run, and the table it leaves. */
  function ApplyAll(t: Table, ops: seq<Op>): (seq<int>, Table)
    requires Sized(t) && forall op :: op in ops ==> op.path != "" && op.path[0] == '/'
    decreases |ops|
  {
    if ops == [] then ([], t)
    else
      var (u, result) := Apply(t, ops[0]);
      var (results, v) := ApplyAll(u, ops[1..]);
      ([result] + results, v)
  }

  function TreeAll(tree: map<string, Kind>, ops: seq<Op>): (seq<int>, map<string, Kind>)
    decreases |ops|
  {
    if ops == [] then ([], tree)
    else
      var (next, result) := TreeStep(tree, ops[0]);
      var (results, last) := TreeAll(next, ops[1..]);
      ([result] + results, last)
  }

  lemma {:induction false} AllowedPaths(tree: map<string, Kind>, ops: seq<Op>)
    requires AllowedRun(tree, ops)
    ensures forall op :: op in ops ==> op.path != "" && op.path[0] == '/'
    decreases |ops|
  {
    hide TreeStep;
    if ops != [] {
      AllowedPaths(TreeStep(tree, ops[0]).0, ops[1..]);
      assert ops == [ops[0]] + ops[1..];
    }
  }

  /** Every run reports what the plain tree reports and leaves a sound table that holds exactly the tree. */
  lemma {:induction false} RunRefinesTree(t: Table, tree: map<string, Kind>, ops: seq<Op>)
    requires Inv(t) && Holds(t, tree) && AllowedRun(tree, ops)
    ensures forall op :: op in ops ==> op.path != "" && op.path[0] == '/'
    ensures var (results, u) := ApplyAll(t, ops);
            Inv(u) && results == TreeAll(tree, ops).0 && Holds(u, TreeAll(tree, ops).1)
    decreases |ops|
  {
    AllowedPaths(tree, ops);
    if ops != [] {
      StepRefines(t, tree, ops[0]);
      hide Apply, TreeStep, Allowed, Holds;
      RunRefinesTree(Apply(t, ops[0]).0, TreeStep(tree, ops[0]).0, ops[1..]);
    }
  }

  // ---------------------------------------------------------------- a new file system

  function Fresh(inodes: seq<Inode>): Table
    requires |inodes| == INODES_AMOUNT
  {
    CreateInode(Table(inodes, seq(INODES_AMOUNT, i => false), 0), "/", 0x41ed, Dir).0
  }

  lemma {:induction false} CountNone(live: seq<bool>)
    requires forall i :: 0 <= i < |live| ==> !live[i]
    ensures Count(live) == 0
  {
    if live != [] { CountNone(live[1..]); }
  }

  /** fisopfs_init with nothing on disk: a sound table that holds the root alone. */
  lemma FreshHolds(inodes: seq<Inode>)
    requires |inodes| == INODES_AMOUNT
    ensures Inv(Fresh(inodes)) && Holds(Fresh(inodes), map["/" := Dir])
  {
    var none := seq(INODES_AMOUNT, i => false);
    var t, u := Table(inodes, none, 0), Fresh(inodes);
    CountNone(none);
    CountUpdate(none, 0, true);
    hide Count;
    assert SearchFree(t) == 0;
    assert u == Table(inodes[0 := Inode("/", "", 0, Dir, 0x41ed)], none[0 := true], 1);
    assert forall a :: LiveAt(u, a) <==> a == 0;
    assert Absolute("/");
    assert LiveAt(u, 0) && u.inodes[0].path == "/" && u.inodes[0].kind == Dir;
    assert forall p, k :: Has(u, p, k) ==> p == "/" && k == Dir;
    assert Has(u, "/", Dir);
    assert forall n :: !IsChild(u, "/", n);
    assert Text("") == "" && Lines("") == [];
  }
}
