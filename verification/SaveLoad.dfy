/** The image on disk: what serialize prints and deserialize parses, and what survives an unmount. */
module SaveLoad {
  import opened CString
  import opened DirectoryText
  import opened FsModel
  import opened FsRuns
  import opened FileSystem
  import opened Sequences

  /** An image holds the inode count, then for each stored inode its fields and its content byte by byte. */
  datatype Cell = Amount(count: int) | Meta(path: string, size: int, kind: Kind, mode: int) | Byte(value: char)

  /** The first `n` bytes of a buffer whose unwritten part reads as zero. */
  function FirstBytes(content: string, n: nat): (b: string)
    ensures |b| == n
  {
    if n <= |content| then content[..n] else content + seq(n - |content|, i => '\0')
  }

  function Cells(bytes: string): seq<Cell> { seq(|bytes|, i requires 0 <= i < |bytes| => Byte(bytes[i])) }

  predicate Storable(t: Table) {
    && Sized(t) && 0 <= t.amount <= INODES_AMOUNT
    && forall i :: 0 <= i < INODES_AMOUNT && t.live[i] ==> t.inodes[i].size >= 0
  }

  function Record(inode: Inode): seq<Cell>
    requires inode.size >= 0
  {
    [Meta(inode.path, inode.size, inode.kind, inode.mode)] + Cells(FirstBytes(inode.content, inode.size))
  }

  function SaveFrom(t: Table, i: nat): seq<Cell>
    requires Storable(t)
    decreases t.amount - i
  {
    if i >= t.amount then [] else (if t.live[i] then Record(t.inodes[i]) else []) + SaveFrom(t, i + 1)
  }

  function Save(t: Table): (cells: seq<Cell>)
    requires Storable(t)
    ensures cells != [] && cells[0] == Amount(t.amount)
  {
    [Amount(t.amount)] + SaveFrom(t, 0)
  }

  /** How many bytes a read of `n` finds at the start of `cells`. */
  function Available(cells: seq<Cell>, n: int): (k: nat)
    ensures k <= |cells| && (n >= 0 ==> k <= n) && forall i :: 0 <= i < k ==> cells[i].Byte?
  {
    if n <= 0 || cells == [] || !cells[0].Byte? then 0 else 1 + Available(cells[1..], n - 1)
  }

  function Values(cells: seq<Cell>, k: nat): string
    requires k <= |cells| && forall i :: 0 <= i < k ==> cells[i].Byte?
  {
    seq(k, i requires 0 <= i < k => cells[i].value)
  }

  /** The inode that a record holds; a record cut short is filled up with zeros. */
  function ReadRecord(cells: seq<Cell>): Inode
    requires cells != [] && cells[0].Meta? && cells[0].size >= 0
  {
    var m, k := cells[0], Available(cells[1..], cells[0].size);
    Inode(m.path, FirstBytes(Values(cells[1..], k), m.size), m.size, m.kind, m.mode)
  }

  /** The loop of deserialize from slot `i` on. */
  function LoadFrom(cells: seq<Cell>, i: nat, amount: int, t: Table): (u: Table)
    requires Sized(t) && amount <= INODES_AMOUNT
    ensures Sized(u) && u.amount == t.amount
    decreases |cells|
  {
    if i >= amount || cells == [] || !cells[0].Meta? || cells[0].size < 0 then t
    else
      LoadFrom(cells[1 + Available(cells[1..], cells[0].size)..], i + 1, amount,
               t.(inodes := t.inodes[i := ReadRecord(cells)], live := t.live[i := true]))
  }

  function Load(cells: seq<Cell>, t: Table): (u: Table)
    requires Sized(t) && cells != [] && cells[0].Amount? && cells[0].count <= INODES_AMOUNT
    ensures Sized(u) && u.amount == cells[0].count
  {
    LoadFrom(cells[1..], 0, cells[0].count, t.(amount := cells[0].count))
  }

  // ---------------------------------------------------------------- one record

  function Stored(inode: Inode): Inode
    requires inode.size >= 0
  {
    inode.(content := FirstBytes(inode.content, inode.size))
  }

  /** A byte run is read back whole when no byte follows it. */
  lemma {:induction false} AvailableAll(bytes: string, rest: seq<Cell>, n: nat)
    requires |bytes| == n && (rest == [] || !rest[0].Byte?)
    ensures Available(Cells(bytes) + rest, n) == n
  {
    if n == 0 {
    } else {
      AvailableAll(bytes[1..], rest, n - 1);
      assert (Cells(bytes) + rest)[1..] == Cells(bytes[1..]) + rest;
    }
  }

  lemma ReadBack(inode: Inode, rest: seq<Cell>)
    requires inode.size >= 0 && (rest == [] || !rest[0].Byte?)
    ensures var cells := Record(inode) + rest;
            && cells[0].Meta? && cells[0].size == inode.size && ReadRecord(cells) == Stored(inode)
            && cells[1 + Available(cells[1..], cells[0].size)..] == rest
  {
    var bytes := FirstBytes(inode.content, inode.size);
    var cells := Record(inode) + rest;
    assert cells[1..] == Cells(bytes) + rest;
    AvailableAll(bytes, rest, inode.size);
    assert Values(cells[1..], inode.size) == bytes;
    assert cells[1 + inode.size..] == rest;
  }

  // ---------------------------------------------------------------- the whole image

  /** What is saved from slot `i` on. */
  function PackedFrom(t: Table, i: nat): seq<Inode>
    requires Storable(t)
    decreases t.amount - i
  {
    if i >= t.amount then [] else (if t.live[i] then [Stored(t.inodes[i])] else []) + PackedFrom(t, i + 1)
  }

  /** `u` with `list` in the slots from `i` on. */
  function Put(u: Table, i: nat, list: seq<Inode>): Table
    requires Sized(u) && i + |list| <= INODES_AMOUNT
  {
    u.(inodes := u.inodes[..i] + list + u.inodes[i + |list|..],
       live := u.live[..i] + Repeat(true, |list|) + u.live[i + |list|..])
  }

  lemma {:induction false} PackedLength(t: Table, i: nat)
    requires Storable(t) && i <= t.amount
    ensures |PackedFrom(t, i)| == Count(t.live[i..t.amount]) <= t.amount - i
    decreases t.amount - i
  {
    if i < t.amount {
      PackedLength(t, i + 1);
      assert t.live[i..t.amount][1..] == t.live[i + 1..t.amount];
    }
  }

  lemma SaveFromStart(t: Table, i: nat)
    requires Storable(t)
    ensures SaveFrom(t, i) == [] || SaveFrom(t, i)[0].Meta?
    decreases t.amount - i
  {
    if i < t.amount && !t.live[i] {
      SaveFromStart(t, i + 1);
    }
  }

  lemma PutFirst(u: Table, i: nat, x: Inode, list: seq<Inode>)
    requires Sized(u) && i + 1 + |list| <= INODES_AMOUNT
    ensures Put(u.(inodes := u.inodes[i := x], live := u.live[i := true]), i + 1, list) == Put(u, i, [x] + list)
  {
    var v := u.(inodes := u.inodes[i := x], live := u.live[i := true]);
    assert v.inodes[..i + 1] == u.inodes[..i] + [x];
    assert v.live[..i + 1] == u.live[..i] + [true];
    assert u.inodes[..i] + ([x] + list) == u.inodes[..i] + [x] + list;
    assert u.live[..i] + ([true] + Repeat(true, |list|)) == u.live[..i] + [true] + Repeat(true, |list|);
    assert |[x] + list| == 1 + |list|;
  }

  lemma PutNone(u: Table, i: nat)
    requires Sized(u) && i <= INODES_AMOUNT
    ensures Put(u, i, []) == u
  {
    assert u.inodes[..i] + [] + u.inodes[i..] == u.inodes;
    assert u.live[..i] + [] + u.live[i..] == u.live;
  }

  lemma LoadOne(inode: Inode, rest: seq<Cell>, i: nat, amount: int, u: Table)
    requires inode.size >= 0 && (rest == [] || !rest[0].Byte?) && Sized(u) && i < amount <= INODES_AMOUNT
    ensures LoadFrom(Record(inode) + rest, i, amount, u) ==
            LoadFrom(rest, i + 1, amount, u.(inodes := u.inodes[i := Stored(inode)], live := u.live[i := true]))
  {
    ReadBack(inode, rest);
    hide ReadRecord, Available, Stored, Record;
  }

  /** The parser undoes the printer. */
  lemma {:induction false} LoadSaveFrom(t: Table, k: nat, i: nat, u: Table)
    requires Storable(t) && Sized(u) && i <= k <= t.amount
    ensures |PackedFrom(t, k)| <= t.amount - k
    ensures LoadFrom(SaveFrom(t, k), i, t.amount, u) == Put(u, i, PackedFrom(t, k))
    decreases t.amount - k
  {
    hide Record, ReadRecord, Available, Stored, Count, Put;
    PackedLength(t, k);
    if k == t.amount {
      PutNone(u, i);
    } else if t.live[k] {
      SaveFromStart(t, k + 1);
      hide LoadFrom;
      LoadOne(t.inodes[k], SaveFrom(t, k + 1), i, t.amount, u);
      LoadSaveFrom(t, k + 1, i + 1, u.(inodes := u.inodes[i := Stored(t.inodes[k])], live := u.live[i := true]));
      PutFirst(u, i, Stored(t.inodes[k]), PackedFrom(t, k + 1));
    } else {
      LoadSaveFrom(t, k + 1, i, u);
      assert [] + SaveFrom(t, k + 1) == SaveFrom(t, k + 1);
      assert [] + PackedFrom(t, k + 1) == PackedFrom(t, k + 1);
    }
  }

  /** Loading a saved table gives the live inodes below inode_amount, packed to the front in order, each with its
      fields and its first `size` bytes. */
  lemma LoadSave(t: Table, u: Table)
    requires Storable(t) && Sized(u)
    ensures |PackedFrom(t, 0)| <= t.amount
    ensures Load(Save(t), u) == Put(u, 0, PackedFrom(t, 0)).(amount := t.amount)
  {
    assert Save(t)[1..] == SaveFrom(t, 0);
    LoadSaveFrom(t, 0, 0, u.(amount := t.amount));
  }

  // ---------------------------------------------------------------- what survives

  lemma {:induction false} CountSplit(a: seq<bool>, b: seq<bool>)
    ensures Count(a + b) == Count(a) + Count(b)
  {
    if a == [] {
      assert a + b == b;
    } else {
      CountSplit(a[1..], b);
      assert (a + b)[1..] == a[1..] + b;
    }
  }

  lemma {:induction false} PackedAll(t: Table, i: nat)
    requires Storable(t) && i <= t.amount && forall k :: i <= k < t.amount ==> t.live[k]
    ensures |PackedFrom(t, i)| == t.amount - i
    ensures forall k :: i <= k < t.amount ==> PackedFrom(t, i)[k - i] == Stored(t.inodes[k])
    decreases t.amount - i
  {
    hide Stored;
    if i < t.amount { PackedAll(t, i + 1); }
  }

  /** No live slot lies at or past inode_amount. */
  ghost predicate InPrefix(t: Table)
    requires Sized(t)
  {
    forall i :: LiveAt(t, i) ==> i < t.amount
  }

  lemma CountParts(t: Table)
    requires Storable(t)
    ensures Count(t.live) == Count(t.live[..t.amount]) + Count(t.live[t.amount..])
  {
    assert t.live[..t.amount] + t.live[t.amount..] == t.live;
    CountSplit(t.live[..t.amount], t.live[t.amount..]);
  }

  lemma TailEmpty(t: Table)
    requires Storable(t)
    ensures InPrefix(t) <==> Count(t.live[t.amount..]) == 0
  {
    var b := t.live[t.amount..];
    if InPrefix(t) {
      assert forall i :: 0 <= i < |b| ==> b[i] == t.live[t.amount + i] && !LiveAt(t, t.amount + i);
      CountNone(b);
    } else {
      var i :| LiveAt(t, i) && i >= t.amount;
      assert b[i - t.amount];
      CountUpdate(b, i - t.amount, false);
    }
  }

  /** In a table that counts its live slots, they lie below the count only when they fill it. */
  lemma PrefixFull(t: Table)
    requires Storable(t) && t.amount == Count(t.live)
    ensures InPrefix(t) <==> Count(t.live[..t.amount]) == t.amount
    ensures InPrefix(t) ==> forall i :: 0 <= i < t.amount ==> t.live[i]
  {
    var a := t.live[..t.amount];
    CountParts(t);
    TailEmpty(t);
    CountIsFull(a);
    hide Count, InPrefix;
    assert forall i :: 0 <= i < t.amount ==> a[i] == t.live[i];
  }

  predicate Blank(t: Table) { Sized(t) && t.live == Repeat(false, INODES_AMOUNT) }

  lemma {:induction false} CountRepeat(b: bool, n: nat)
    ensures Count(Repeat(b, n)) == if b then n else 0
  {
    if n > 0 {
      CountRepeat(b, n - 1);
      assert Repeat(b, n)[1..] == Repeat(b, n - 1);
    }
  }

  lemma LoadedCount(t: Table, u: Table)
    requires Storable(t) && Blank(u)
    ensures Count(Load(Save(t), u).live) == |PackedFrom(t, 0)|
  {
    LoadSave(t, u);
    var n := |PackedFrom(t, 0)|;
    CountSplit(Repeat(true, n), u.live[n..]);
    CountRepeat(true, n);
    CountNone(u.live[n..]);
    assert Load(Save(t), u).live == Repeat(true, n) + u.live[n..];
  }

  lemma TextOfStored(inode: Inode)
    requires |Text(inode.content)| <= inode.size
    ensures Text(Stored(inode).content) == Text(inode.content)
  {
    var c, n := inode.content, inode.size;
    var text, s := Text(c), FirstBytes(c, n);
    assert text == c[..|text|];
    assert forall k :: 0 <= k < |text| ==> s[k] == text[k];
    assert |text| < n ==> s[|text|] == '\0';
    TextUnique(s, text);
  }

  lemma {:induction false} TextUnique(s: string, text: string)
    requires text <= s && '\0' !in text && (|text| < |s| ==> s[|text|] == '\0')
    ensures Text(s) == text
  {
    if text != "" {
      assert s[0] == text[0] && text[0] in text;
      TextUnique(s[1..], text[1..]);
    }
  }

  /** Tables with the same live paths, kinds, sizes and directory texts are equally sound and list the same. */
  lemma SameTree(t: Table, u: Table)
    requires Inv(t) && Sized(u) && u.live == t.live && u.amount == t.amount
    requires forall i :: LiveAt(t, i) ==>
               u.inodes[i].path == t.inodes[i].path && u.inodes[i].kind == t.inodes[i].kind &&
               u.inodes[i].size == t.inodes[i].size &&
               (t.inodes[i].kind == Dir ==> Text(u.inodes[i].content) == Text(t.inodes[i].content))
    ensures Inv(u)
    ensures forall p, k :: Has(u, p, k) <==> Has(t, p, k)
  {
    hide Text, Lines, Parent, Base, Absolute, Terminated;
    assert forall i :: LiveAt(u, i) <==> LiveAt(t, i);
    SameHas(t, u);
    SameChildren(t, u);
    SamePaths(t, u);
    forall j | LiveAt(u, j) && u.inodes[j].kind == Dir ensures DirOk(u, j) {
      hide IsChild;
      assert LiveAt(t, j) && DirOk(t, j);
    }
    hide Has, DirOk, PathsOk, Distinct, ParentsOk, IsChild;
  }

  lemma SamePaths(t: Table, u: Table)
    requires Sized(t) && Sized(u) && u.live == t.live && PathsOk(t) && Distinct(t) && ParentsOk(t)
    requires forall i :: LiveAt(t, i) ==> u.inodes[i].path == t.inodes[i].path
    requires forall p, k :: Has(u, p, k) <==> Has(t, p, k)
    ensures PathsOk(u) && Distinct(u) && ParentsOk(u)
  {
    hide Has, Parent, Absolute;
    assert forall i :: LiveAt(u, i) <==> LiveAt(t, i);
    forall i | LiveAt(u, i) ensures ParentOk(u, u.inodes[i].path) { assert ParentOk(t, t.inodes[i].path); }
  }

  lemma SameHas(t: Table, u: Table)
    requires Sized(t) && Sized(u) && u.live == t.live
    requires forall i :: LiveAt(t, i) ==> u.inodes[i].path == t.inodes[i].path && u.inodes[i].kind == t.inodes[i].kind
    ensures forall p, k :: Has(u, p, k) <==> Has(t, p, k)
  {
    assert forall i :: LiveAt(u, i) <==> LiveAt(t, i);
    forall p, k | Has(t, p, k) ensures Has(u, p, k) {
      var i :| LiveAt(t, i) && t.inodes[i].path == p && t.inodes[i].kind == k;
      assert u.inodes[i].path == p;
    }
    forall p, k | Has(u, p, k) ensures Has(t, p, k) {
      var i :| LiveAt(u, i) && u.inodes[i].path == p && u.inodes[i].kind == k;
      assert t.inodes[i].path == p;
    }
  }

  lemma SameChildren(t: Table, u: Table)
    requires Sized(t) && Sized(u) && u.live == t.live
    requires forall i :: LiveAt(t, i) ==> u.inodes[i].path == t.inodes[i].path
    ensures forall d, n :: IsChild(u, d, n) <==> IsChild(t, d, n)
  {
    hide HasPlace;
    assert forall i :: LiveAt(u, i) <==> LiveAt(t, i);
    forall d, n | IsChild(t, d, n) ensures IsChild(u, d, n) {
      var i :| LiveAt(t, i) && HasPlace(t.inodes[i].path, d, n);
      assert HasPlace(u.inodes[i].path, d, n);
    }
    forall d, n | IsChild(u, d, n) ensures IsChild(t, d, n) {
      var i :| LiveAt(u, i) && HasPlace(u.inodes[i].path, d, n);
      assert HasPlace(t.inodes[i].path, d, n);
    }
  }

  /** With the live slots in a prefix, every live slot comes back where it was. */
  lemma PrefixComesBack(t: Table, u: Table)
    requires Storable(t) && t.amount == Count(t.live) && InPrefix(t) && Blank(u)
    ensures var v := Load(Save(t), u);
            Sized(v) && v.live == t.live && v.amount == t.amount &&
            forall i :: LiveAt(t, i) ==> v.inodes[i] == Stored(t.inodes[i])
  {
    hide PackedFrom, SaveFrom, LoadFrom, Load, Save, Stored, Count, Put;
    PrefixFull(t);
    PackedAll(t, 0);
    LoadSave(t, u);
    PutPrefix(u, PackedFrom(t, 0));
    var v := Load(Save(t), u);
    forall i | 0 <= i < INODES_AMOUNT ensures v.live[i] == t.live[i] {
      if i >= t.amount {
        assert !LiveAt(t, i) && !u.live[i];
        assert v.live[i] == Put(u, 0, PackedFrom(t, 0)).live[i];
      }
    }
  }

  lemma PutPrefix(u: Table, list: seq<Inode>)
    requires Sized(u) && |list| <= INODES_AMOUNT
    ensures var v := Put(u, 0, list);
            && Sized(v) && (forall i :: 0 <= i < |list| ==> v.live[i] && v.inodes[i] == list[i])
            && (forall i :: |list| <= i < INODES_AMOUNT ==> v.live[i] == u.live[i])
  {
  }

  /** Unmounting and mounting a sound table leaves a sound table exactly when no live inode lies at or past
      inode_amount; then it holds the same paths and lists the same directories. */
  lemma RemountSoundIff(t: Table, u: Table)
    requires Inv(t) && Storable(t) && Blank(u)
    ensures Inv(Load(Save(t), u)) <==> InPrefix(t)
    ensures InPrefix(t) ==> forall p, k :: Has(Load(Save(t), u), p, k) <==> Has(t, p, k)
    ensures InPrefix(t) ==> forall i :: LiveAt(t, i) ==> Load(Save(t), u).inodes[i] == Stored(t.inodes[i])
  {
    hide Load, Save, Has, PathsOk, Distinct, ParentsOk, Count, DirOk, PackedFrom, FirstBytes;
    var v := Load(Save(t), u);
    PackedLength(t, 0);
    PrefixFull(t);
    assert t.live[..t.amount] == t.live[0..t.amount];
    LoadedCount(t, u);
    LoadSave(t, u);
    if InPrefix(t) {
      PrefixComesBack(t, u);
      hide InPrefix, Storable;
      StoredTexts(t, v);
      SameTree(t, v);
    }
  }

  lemma StoredTexts(t: Table, v: Table)
    requires Inv(t) && Sized(v)
    requires forall i :: LiveAt(t, i) ==> t.inodes[i].size >= 0 && v.inodes[i] == Stored(t.inodes[i])
    ensures forall i :: LiveAt(t, i) && t.inodes[i].kind == Dir ==>
              Text(v.inodes[i].content) == Text(t.inodes[i].content)
  {
    hide Text;
    forall i | LiveAt(t, i) && t.inodes[i].kind == Dir ensures Text(v.inodes[i].content) == Text(t.inodes[i].content) {
      assert DirOk(t, i);
      TextOfStored(t.inodes[i]);
    }
  }

  // ---------------------------------------------------------------- serialize and deserialize

  /** An open file and its offset. */
  class DiskFile {
    var cells: seq<Cell>
    var offset: nat

    constructor (image: seq<Cell>)
      ensures cells == image && offset == 0
    {
      cells, offset := image, 0;
    }

    /** write at the end of a file opened with O_TRUNC. */
    method Write(data: seq<Cell>)
      modifies this`cells
      ensures cells == old(cells) + data
    {
      cells := cells + data;
    }

    /** read of an inode_t: nothing at the end of the file. */
    method ReadInode() returns (inode: Inode, found: bool)
      requires offset <= |cells|
      modifies this`offset
      ensures found == (old(offset) < |cells| && cells[old(offset)].Meta? && cells[old(offset)].size >= 0)
      ensures found ==>
                var m := cells[old(offset)];
                offset == old(offset) + 1 && inode == Inode(m.path, "", m.size, m.kind, m.mode)
      ensures !found ==> offset == old(offset)
    {
      if offset == |cells| || !cells[offset].Meta? || cells[offset].size < 0 {
        return Inode("", "", 0, File, 0), false;
      }
      var m := cells[offset];
      offset := offset + 1;
      return Inode(m.path, "", m.size, m.kind, m.mode), true;
    }

    /** read of `n` content bytes into a buffer of zeros. */
    method ReadBytes(n: nat) returns (content: string)
      requires offset <= |cells|
      modifies this`offset
      ensures offset == old(offset) + Available(cells[old(offset)..], n)
      ensures content == FirstBytes(Values(cells[old(offset)..], Available(cells[old(offset)..], n)), n)
    {
      var k := Available(cells[offset..], n);
      content := FirstBytes(Values(cells[offset..], k), n);
      offset := offset + k;
    }
  }

  /** serialize, up to the frees. */
  method Serialize(sb: Superblock, f: DiskFile)
    requires sb.Valid() && Storable(sb.Contents()) && f.cells == []
    modifies f
    ensures f.cells == Save(sb.Contents()) && sb.Contents() == old(sb.Contents())
  {
    hide Record;
    ghost var t := sb.Contents();
    f.Write([Amount(sb.inodeAmount)]);
    assert Save(t) == [Amount(t.amount)] + SaveFrom(t, 0);
    for i := 0 to sb.inodeAmount
      invariant sb.Contents() == t && f.cells + SaveFrom(t, i) == Save(t)
    {
      assert SaveFrom(t, i) == (if t.live[i] then Record(t.inodes[i]) else []) + SaveFrom(t, i + 1);
      if !sb.bitmap[i] {
        continue;
      }
      f.Write(Record(sb.inodes[i]));
    }
  }

  /** deserialize into a superblock. */
  method Deserialize(f: DiskFile, sb: Superblock)
    requires sb.Valid() && f.cells != [] && f.cells[0].Amount? && f.cells[0].count <= INODES_AMOUNT && f.offset == 0
    modifies f, sb, sb.inodes, sb.bitmap
    ensures sb.Valid() && sb.Contents() == Load(old(f.cells), old(sb.Contents()))
  {
    hide FirstBytes, Values, Available;
    ghost var goal := Load(f.cells, sb.Contents());
    var inodesAmount := f.cells[0].count;
    f.offset := 1;
    sb.inodeAmount := inodesAmount;
    var i := 0;
    while i < inodesAmount
      invariant sb.Valid() && f.cells == old(f.cells) && 0 <= i && 1 <= f.offset <= |f.cells|
      invariant LoadFrom(f.cells[f.offset..], i, inodesAmount, sb.Contents()) == goal
      decreases inodesAmount - i
    {
      ghost var rest, before := f.cells[f.offset..], sb.Contents();
      assert f.offset < |f.cells| ==> rest[0] == f.cells[f.offset] && rest[1..] == f.cells[f.offset + 1..];
      var inode, found := f.ReadInode();
      if !found { break; }
      var content := f.ReadBytes(inode.size);
      inode := inode.(content := content);
      assert inode == ReadRecord(rest);
      sb.inodes[i] := inode;
      sb.bitmap[i] := true;
      assert sb.Contents() == before.(inodes := before.inodes[i := inode], live := before.live[i := true]);
      assert rest[1 + Available(rest[1..], inode.size)..] == f.cells[f.offset..];
      i := i + 1;
    }
  }
}
