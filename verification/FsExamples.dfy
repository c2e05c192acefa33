/** Runs of a few calls on a file system just made that leave what `FsRuns` and `SaveLoad` say can go wrong. */
module FsExamples {
  import opened CString
  import opened DirectoryText
  import opened FsModel
  import opened FsProofs
  import opened FsRuns
  import opened SaveLoad

  const MODE := 0x41ed

  lemma ShortPaths()
    ensures Absolute("/") && Absolute("/a") && Absolute("/b") && Absolute("/a/b")
    ensures Parent("/a") == "/" && Parent("/b") == "/" && Parent("/a/b") == "/a"
    ensures Base("/a") == "a" && Base("/b") == "b" && '\n' !in "a" && '\n' !in "b"
  {
    assert "/a/b"[..3] == "/a/" && "/a/b"[..2] == "/a";
    assert LastSlash("/a/") == 2;
    assert LastSlash("/a/b") == 2;
    assert "/a"[..1] == "/" && "/b"[..1] == "/";
    assert LastSlash("/a") == 0 && LastSlash("/b") == 0;
    assert "/a"[1..] == "a" && "/b"[1..] == "b";
  }

  lemma FreshHasRoom(inodes: seq<Inode>)
    requires |inodes| == INODES_AMOUNT
    ensures Inv(Fresh(inodes)) && SearchFree(Fresh(inodes)) == 1 && Fresh(inodes).live[0]
    ensures forall p, k :: Has(Fresh(inodes), p, k) <==> p == "/" && k == Dir
  {
    FreshHolds(inodes);
    var t := Table(inodes, seq(INODES_AMOUNT, i => false), 0);
    assert SearchFree(t) == 0;
    assert !Fresh(inodes).live[1] && Fresh(inodes).live[0];
    assert SearchFree(Fresh(inodes), 1) == 1;
  }

  /** mkdir "/a/b" where no "/a" exists: success, an inode that no directory lists, and a table that is not sound. */
  lemma MadeWithoutParent(inodes: seq<Inode>)
    requires |inodes| == INODES_AMOUNT
    ensures var (u, result) := Make(Fresh(inodes), "/a/b", MODE, Dir);
            result == 0 && Exists(u, "/a/b") && Readdir(u, "/a").1 == -ENOENT && !Inv(u)
  {
    var t := Fresh(inodes);
    ShortPaths();
    FreshHasRoom(inodes);
    hide Fresh, SearchFree, Parent, Base, Absolute, Has, Inv, LastSlash;
    MakeKeepsIff(t, "/a/b", MODE, Dir);
    MakeResult(t, "/a/b", MODE, Dir);
    MakeAdds(t, "/a/b", MODE, Dir);
    var u := Make(t, "/a/b", MODE, Dir).0;
    assert LiveAt(u, SearchFree(t)) && u.inodes[SearchFree(t)].path == "/a/b";
    hide Make;
    OrphanHasNoDir(t, u);
  }

  lemma OrphanHasNoDir(t: Table, u: Table)
    requires Sized(t) && Sized(u) && SearchFree(t) != -1 && u.live == t.live[SearchFree(t) := true]
    requires u.inodes[SearchFree(t)].path == "/a/b" && forall p, k :: Has(t, p, k) ==> p == "/"
    requires forall k :: LiveAt(t, k) ==> u.inodes[k].path == t.inodes[k].path
    ensures Search(u, "/a") == ERROR
  {
    hide SearchFree, Search;
    forall k | LiveAt(u, k) ensures u.inodes[k].path != "/a" {
      if k != SearchFree(t) {
        assert LiveAt(t, k) && Has(t, t.inodes[k].path, t.inodes[k].kind);
      }
    }
  }

  /** rmdir "/" just after mounting: success, and no path is left while inode_amount still counts one. */
  lemma RootRemoved(inodes: seq<Inode>)
    requires |inodes| == INODES_AMOUNT
    ensures var (u, result) := Rmdir(Fresh(inodes), "/");
            result == 0 && !Exists(u, "/") && u.amount == 1 && !Inv(u)
  {
    var t := Fresh(inodes);
    FreshHolds(inodes);
    assert t.inodes[0] == Inode("/", "", 0, Dir, MODE) && t.live[0];
    assert Search(t, "/") == 0;
    assert Text("") == "";
    hide Search;
    RootGone(t, 0);
    assert Rmdir(t, "/").0 == t.(live := t.live[0 := false]);
  }

  // ---------------------------------------------------------------- mkdir "/a", mkdir "/b", rmdir "/a"

  function Holed(inodes: seq<Inode>): (t: Table)
    requires |inodes| == INODES_AMOUNT
    ensures Sized(t)
  {
    Rmdir(Make(Make(Fresh(inodes), "/a", MODE, Dir).0, "/b", MODE, Dir).0, "/a").0
  }

  lemma MakeOne(t: Table, path: string)
    requires Inv(t) && SearchFree(t) != -1 && Absolute(path) && path != "/" && |path| < MAX_PATH
    requires Parent(path) == "/" && '\n' !in Base(path) && !Has(t, path, Dir) && !Has(t, path, File)
    ensures var u := Make(t, path, MODE, Dir).0;
            && Inv(u) && u.live == t.live[SearchFree(t) := true] && u.inodes[SearchFree(t)].path == path
            && u.amount == t.amount + 1 && (forall k :: LiveAt(t, k) ==> u.inodes[k].path == t.inodes[k].path)
            && (forall p, k :: Has(u, p, k) <==> Has(t, p, k) || (p == path && k == Dir))
  {
    CountUpdate(t.live, SearchFree(t), true);
    hide Make, SearchFree, Parent, Base, Absolute;
    hide Has;
    ExistsHas(t, path);
    MakeCorrect(t, path, MODE, Dir);
    MakeAdds(t, path, MODE, Dir);
  }

  /** rmdir of the first of two directories below the root frees its slot and moves nothing. */
  lemma RemoveFirst(t: Table)
    requires Inv(t) && t.live[0] && LiveAt(t, 1) && LiveAt(t, 2)
    requires t.inodes[0].path == "/" && t.inodes[1].path == "/a" && t.inodes[2].path == "/b"
    requires forall p, k :: Has(t, p, k) <==> (p == "/" || p == "/a" || p == "/b") && k == Dir
    ensures var u := Rmdir(t, "/a").0;
            && Inv(u) && u.amount == t.amount - 1 && u.live == t.live[1 := false]
            && u.inodes[0].path == "/" && u.inodes[2].path == "/b"
            && (forall p, k :: Has(u, p, k) <==> (p == "/" || p == "/b") && k == Dir)
  {
    ShortPaths();
    hide Parent, Base, Absolute, LastSlash, PathsOk, ParentsOk, DirOk, Search;
    assert Search(t, "/a") == 1;
    assert Has(t, "/a", Dir) && !Has(t, "/a", File) && Exists(t, "/a");
    forall n, i | LiveAt(t, i) ensures !HasPlace(t.inodes[i].path, "/a", n) {
      assert Has(t, t.inodes[i].path, t.inodes[i].kind);
    }
    assert !HasChildren(t, "/a");
    RmdirCorrect(t, "/a");
    hide Has;
    var j := RemoveShape(t, "/a", 1);
  }

  /** Slot 1 is free again and slot 2 holds "/b", with an inode_amount of 2. */
  lemma HoledIs(inodes: seq<Inode>)
    requires |inodes| == INODES_AMOUNT
    ensures var t := Holed(inodes);
            && Inv(t) && t.amount == 2 && t.live[0] && !t.live[1] && LiveAt(t, 2) && t.inodes[2].path == "/b"
            && t.inodes[0].path == "/" && (forall p, k :: Has(t, p, k) <==> (p == "/" || p == "/b") && k == Dir)
  {
    var t0 := Fresh(inodes);
    ShortPaths();
    FreshHasRoom(inodes);
    assert t0.amount == 1 && t0.inodes[0].path == "/";
    hide Fresh, Parent, Base, Absolute, Has, LastSlash, Make;
    MakeOne(t0, "/a");
    var t1 := Make(t0, "/a", MODE, Dir).0;
    assert SearchFree(t1) == 2 by {
      assert t1.live[0] && t1.live[1] && !t1.live[2];
      assert SearchFree(t1, 2) == 2 && SearchFree(t1, 1) == 2;
    }
    hide SearchFree;
    MakeOne(t1, "/b");
    var t2 := Make(t1, "/b", MODE, Dir).0;
    assert LiveAt(t1, 1) && LiveAt(t1, 0) && LiveAt(t0, 0);
    RemoveFirst(t2);
  }

  lemma DirsStorable(t: Table)
    requires Inv(t) && 0 <= t.amount <= INODES_AMOUNT && forall p, k :: Has(t, p, k) ==> k == Dir
    ensures Storable(t)
  {
    hide Text, Lines, IsChild, PathsOk, ParentsOk, Distinct, Count;
    forall i | 0 <= i < INODES_AMOUNT && t.live[i] ensures t.inodes[i].size >= 0 {
      assert LiveAt(t, i) && Has(t, t.inodes[i].path, t.inodes[i].kind);
      assert DirOk(t, i);
    }
  }

  /** Of slots 0 and 2 only slot 0 lies below the recorded amount of 2. */
  lemma OneLoaded(t: Table, u: Table)
    requires Storable(t) && t.amount == 2 && t.live[0] && !t.live[1] && t.inodes[0].path == "/" && Blank(u)
    ensures var v := Load(Save(t), u); Sized(v) && forall i :: LiveAt(v, i) ==> v.inodes[i].path == "/"
  {
    LoadSave(t, u);
    assert PackedFrom(t, 2) == [] && PackedFrom(t, 1) == [];
    assert PackedFrom(t, 0) == [Stored(t.inodes[0])];
    hide Load, Save, PackedFrom;
    PutPrefix(u, [Stored(t.inodes[0])]);
  }

  /** After the next unmount and mount "/b" is gone, and the table is not sound. */
  lemma LostAtRemount(inodes: seq<Inode>, u: Table)
    requires |inodes| == INODES_AMOUNT && Blank(u)
    ensures var t := Holed(inodes);
            && Inv(t) && Storable(t) && Exists(t, "/b")
            && Sized(Load(Save(t), u)) && !Exists(Load(Save(t), u), "/b") && !Inv(Load(Save(t), u))
  {
    HoledIs(inodes);
    var t := Holed(inodes);
    hide Holed, Inv, Has, Load, Save, Storable;
    DirsStorable(t);
    OneLoaded(t, u);
    RemountSoundIff(t, u);
  }
}
