/** Creating and removing files and directories: touch, mkdir, rm and rmdir (minix3.c). */
module Minix3Dirs {
  import opened Bytes
  import opened Arith
  import opened Minix3Layout
  import opened Minix3Slots
  import opened Minix3Files
  import opened Minix3Disk
  import opened Minix3Walker
  import opened Minix3Append
  import opened Minix3Read
  import opened Minix3Clear
  import opened Minix3Entries
  import opened Minix3Tree
  import opened Minix3Nodes
  import opened Minix3Inodes
  import opened Minix3Lookup

  const NOT_A_DIRECTORY := 2
  const EXISTS := 4
  const IS_DIRECTORY := 103
  const NOT_EMPTY := 104
  const UNKNOWN_ERROR := 105

  const UID_MISHLER: u16 := 0xd000
  const GID_MISHLER: u16 := 0xd000

  /** What holds between operations: a consistent store whose directories form a tree. */
  ghost predicate Ready(fs: FileStore)
    reads fs, fs.dev, fs.dev.data
  {
    Orderly(fs) && WfTree(TreeNow(fs))
  }

  ghost function Free(fs: FileStore): set<nat>
    requires fs.Mounted()
    reads fs, fs.dev, fs.dev.data
  {
    FreeAhead(fs.sb, fs.Vol().zoneMap, fs.zoneCursor)
  }

  lemma TreeInTable(fs: FileStore, i: nat)
    requires Orderly(fs) && i in TreeNow(fs)
    ensures InTable(fs.sb, i) && i in fs.Vol().inodes && i in fs.Vol().inodeMap && i < 0x1_0000_0000
    ensures IsDir(TreeNow(fs), i) <==> IsDirectory(fs.Vol().inodes[i])
    ensures TreeNow(fs)[i].nlinks == fs.Vol().inodes[i].nlinks
  {
    hide Fits, Meaning, Consistent;
  }

  lemma DirReadable(fs: FileStore, d: nat)
    requires Ready(fs) && IsDir(TreeNow(fs), d)
    ensures Readable(fs.sb, TreeNow(fs)[d].entries) && UniqueNames(TreeNow(fs)[d].entries)
  {
    hide Orderly, TreeNow, WfTree;
    var es := TreeNow(fs)[d].entries;
    DirOf(TreeNow(fs), d);
    forall x | 0 <= x < |es| && es[x].ino != 0 ensures InTable(fs.sb, es[x].ino) && IsName(es[x].name) {
      assert EntryOk(TreeNow(fs), es[x]);
      TreeInTable(fs, es[x].ino);
    }
  }

  // ---- one more entry ------------------------------------------------------------

  lemma AppendedEntry(bs: nat, v0: Volume, v1: Volume, p: nat, e: Entry)
    requires bs >= 64 && AllWf(v0) && AllWf(v1) && IsDir(TreeOf(v0, bs), p) && WholeEntries(v0) && IsName(e.name)
    requires p in v0.inodes && p in v1.inodes && |FileBytes(v0.zones, v0.inodes[p], bs)| == v0.inodes[p].size
    requires FileBytes(v1.zones, v1.inodes[p], bs) == FileBytes(v0.zones, v0.inodes[p], bs) + EncodeEntry(e)
    requires v0.inodes[p].size + ENTRY_SIZE < 0x1_0000_0000
    requires v1.inodes[p] == v0.inodes[p].(size := v0.inodes[p].size + ENTRY_SIZE, zones := v1.inodes[p].zones)
    requires v1.inodes == v0.inodes[p := v1.inodes[p]] && v1.inodeMap == v0.inodeMap
    requires forall j :: j in FilesOf(v0, bs) && j != p ==>
               FileBytes(v1.zones, v0.inodes[j], bs) == FileBytes(v0.zones, v0.inodes[j], bs)
    ensures WholeEntries(v1)
    ensures var node := TreeOf(v0, bs)[p];
            TreeOf(v1, bs) == TreeOf(v0, bs)[p := Directory(node.nlinks, node.entries + [e])]
  {
    hide FileBytes, EncodeEntry, DecodeEntry, Count, Entries;
    DirectoryNode(bs, v0, p);
    EntriesAppend(FileBytes(v0.zones, v0.inodes[p], bs), EncodeEntry(e));
    EntryRoundTrip(e);
  }

  /** Append an encoded entry to directory p. */
  method AppendEntry(fs: FileStore, p: nat, buffer: array<byte>, ghost e: Entry, ghost spare: nat)
    requires Orderly(fs) && IsDir(TreeNow(fs), p) && IsName(e.name) && p in fs.Vol().inodes
    requires buffer != fs.dev.data && buffer[..] == EncodeEntry(e)
    requires Room(fs.bs, fs.Vol(), Free(fs), p, ENTRY_SIZE, spare)
    modifies fs.dev.data, fs`zoneCursor, fs`owner
    ensures Orderly(fs)
    ensures var node := old(TreeNow(fs))[p];
            TreeNow(fs) == old(TreeNow(fs))[p := Directory(node.nlinks, node.entries + [e])]
    ensures |Free(fs)| >= spare
    ensures p in fs.Vol().inodes && fs.Vol().inodes[p].mode == old(fs.Vol()).inodes[p].mode
    ensures forall i :: i in old(fs.Vol()).inodes && i != p ==>
              i in fs.Vol().inodes && fs.Vol().inodes[i] == old(fs.Vol()).inodes[i]
  {
    hide Fits, Meaning, Consistent, TreeOf, FileBytes, Room, FreeAhead, Count, Sized, FileStore.Mounted, EncodeEntry,
      FilesOf, WholeEntries, IsDirectory;
    ghost var v0 := fs.Vol();
    DirectoryNode(fs.bs, v0, p);
    ConsistentFacts(fs.sb, fs.bs, v0, fs.owner, p);
    FileLength(fs.sb, fs.bs, v0, v0.inodes[p], Count(v0.inodes[p].size, fs.bs));
    RoomFits(fs.bs, v0, Free(fs), p, ENTRY_SIZE, spare);
    assert buffer[..ENTRY_SIZE] == buffer[..];
    var _ := AppendToFile(fs, p, buffer, ENTRY_SIZE, spare);
    AppendedEntry(fs.bs, v0, fs.Vol(), p, e);
  }

  lemma RoomFits(bs: nat, v: Volume, free: set<nat>, i: nat, size: nat, spare: nat)
    requires bs >= 4 && i in v.inodes && Room(bs, v, free, i, size, spare)
    ensures v.inodes[i].size + size < 0x1_0000_0000
  {
  }

  // ---- touch -----------------------------------------------------------------------

  predicate Absent(t: Tree, p: nat, name: seq<byte>)
    requires IsDir(t, p)
  {
    forall x :: 0 <= x < |t[p].entries| ==> !Matches(t[p].entries, name, x)
  }

  lemma AbsentIs(t: Tree, p: nat, name: seq<byte>)
    requires IsDir(t, p)
    ensures Absent(t, p, name) <==> !(exists e :: e in t[p].entries && e.ino != 0 && e.name == name)
  {
    var es := t[p].entries;
    if e :| e in es && e.ino != 0 && e.name == name {
      var x :| 0 <= x < |es| && es[x] == e;
      assert Matches(es, name, x);
    }
  }

  /** A free inode of the table is next, the directory has room for an entry, and `spare` free zones are left then. */
  ghost predicate CanCreate(fs: FileStore, p: nat, spare: nat)
    requires Orderly(fs)
    reads fs, fs.dev, fs.dev.data
  {
    p in fs.Vol().inodes &&
    var next := NextInode(fs.sb, fs.Vol().inodeMap, fs.inodeCursor);
    next.Some? && InTable(fs.sb, next.value) && Room(fs.bs, fs.Vol(), Free(fs), p, ENTRY_SIZE, spare)
  }

  /** Node c is new, and directory p has one more entry, for it. */
  function Entered(t: Tree, p: nat, c: u32, name: seq<byte>, node: Node): Tree
  {
    if !IsDir(t, p) then t else t[p := Directory(t[p].nlinks, t[p].entries + [Entry(c, name)])][c := node]
  }

  /** The lookup of touch says "not found" exactly when the name is absent. */
  lemma LookupSaysAbsent(fs: FileStore, p: nat, name: seq<byte>)
    requires Orderly(fs) && IsDir(TreeNow(fs), p) && p in fs.Vol().inodes && UniqueNames(TreeNow(fs)[p].entries)
    ensures var m := LastBlockMatch(TreeNow(fs)[p].entries, name, fs.bs / ENTRY_SIZE, Count(fs.Vol().inodes[p].size, fs.bs));
            && (m.None? <==> Absent(TreeNow(fs), p, name))
            && (m.Some? ==> forall x :: 0 <= x < |TreeNow(fs)[p].entries| ==>
                              (Matches(TreeNow(fs)[p].entries, name, x) <==> x == m.value))
  {
    hide Fits, Meaning, Consistent, TreeOf, Count, Times, LastBlockMatch, UniqueNames, FileStore.Mounted, WholeEntries,
      FilesOf, Sized;
    DirectoryNode(fs.bs, fs.Vol(), p);
    EntriesCovered(fs.sb, fs.bs, fs.Vol(), fs.owner, p);
    LookupIsView(TreeNow(fs)[p].entries, name, fs.bs / ENTRY_SIZE, Count(fs.Vol().inodes[p].size, fs.bs));
  }

  /** Marking inode c and writing a blank inode there adds a node without contents. */
  method MakeInode(fs: FileStore, c: nat, f: Inode)
    requires Orderly(fs) && InTable(fs.sb, c) && c !in fs.Vol().inodeMap && Blank(f)
    modifies fs.dev.data
    ensures Orderly(fs)
    ensures TreeNow(fs)
         == old(TreeNow(fs))[c := if IsDirectory(f) then Directory(f.nlinks, []) else Plain(f.nlinks, [])]
    ensures fs.Vol() == old(fs.Vol()).(inodeMap := old(fs.Vol()).inodeMap + {c}, inodes := old(fs.Vol()).inodes[c := f])
  {
    hide Fits, Meaning, Consistent, TreeOf, Sized, FileStore.Mounted, WholeEntries, IsDirectory;
    ghost var v0 := fs.Vol();
    var _ := SetInodeAs(fs, c, true);
    fs.PutInode(c, f);
    NewInode(fs.sb, fs.bs, v0, fs.owner, c, f, fs.Vol());
  }

  /** What touch creates. */
  function NewKind(mode: u16): Node
  {
    if mode / 0x1000 == 4 then Directory(1, []) else Plain(1, [])
  }

  /** The inode of a file just created. */
  function NewFile(mode: u16, uid: u16, gid: u16): Inode
  {
    Inode(mode, 1, uid, gid, 0, 0xaaaaaaaa, 0xcccccccc, 0x22222222, [0, 0, 0, 0, 0, 0, 0, 0, 0, 0])
  }

  /** minix3_touch_common */
  method TouchCommon(fs: FileStore, p: nat, fname: seq<byte>, mode: u16, uid: u16, gid: u16, ghost spare: nat)
    returns (code: int, ghost c: u32)
    requires Ready(fs) && p in TreeNow(fs) && IsName(fname)
    requires IsDir(TreeNow(fs), p) && Absent(TreeNow(fs), p, fname) ==> CanCreate(fs, p, spare)
    modifies fs.dev.data, fs`zoneCursor, fs`inodeCursor, fs`owner
    ensures Orderly(fs)
    ensures code == 2 <==> !IsDir(old(TreeNow(fs)), p)
    ensures code == 4 <==>
              IsDir(old(TreeNow(fs)), p) && exists e :: e in old(TreeNow(fs))[p].entries && e.ino != 0 && e.name == fname
    ensures code in {0, 2, 4}
    ensures code != 0 ==> fs.dev.Image() == old(fs.dev.Image()) && fs.owner == old(fs.owner)
    ensures code == 0 ==>
      && Some(c as nat) == old(NextInode(fs.sb, fs.Vol().inodeMap, fs.inodeCursor)) && c !in old(TreeNow(fs)) && c != 0
      && TreeNow(fs) == Entered(old(TreeNow(fs)), p, c, fname, NewKind(mode))
      && |Free(fs)| >= spare
      && c as nat in fs.Vol().inodes
      && fs.Vol().inodes[c as nat]
         == Inode(mode, 1, uid, gid, 0, 0xaaaaaaaa, 0xcccccccc, 0x22222222, [0, 0, 0, 0, 0, 0, 0, 0, 0, 0])
  {
    hide Fits, Meaning, Consistent, TreeOf, Count, FileStore.Mounted, WholeEntries, Sized, Room, FreeAhead, WfTree,
      UniqueNames, Readable, NextInode, EncodeEntry, Entered;
    c := 0;
    TreeInTable(fs, p);
    var dir := fs.GetInode(p);
    if !IsDirectory(dir) {
      return NOT_A_DIRECTORY, c;
    }
    DirReadable(fs, p);
    LookupSaysAbsent(fs, p, fname);
    AbsentIs(TreeNow(fs), p, fname);
    var retval, _, _ := GetInodeFromName(fs, dir, fname, p);
    if retval != NOT_FOUND {
      return EXISTS, c;
    }
    ghost var v0, t0 := fs.Vol(), TreeNow(fs);
    var newInodeNum := GetAvailableInode(fs);
    NextIsNew(fs, newInodeNum);
    var newInode := NewFile(mode, uid, gid);
    var newDirEntry := NewEntry(newInodeNum, fname);
    MakeInode(fs, newInodeNum, newInode);
    SameRoom(fs.bs, v0, fs.Vol(), Free(fs), p, newInodeNum, spare);
    AppendEntry(fs, p, newDirEntry, Entry(newInodeNum, fname), spare);
    EnteredLast(t0, p, newInodeNum, fname, NewKind(mode));
    return 0, newInodeNum;
  }

  lemma EnteredLast(t: Tree, p: nat, c: u32, name: seq<byte>, node: Node)
    requires IsDir(t, p) && c !in t
    ensures t[c := node][p := Directory(t[p].nlinks, t[p].entries + [Entry(c, name)])] == Entered(t, p, c, name, node)
  {
  }

  lemma NextIsNew(fs: FileStore, c: nat)
    requires Orderly(fs) && InTable(fs.sb, c) && c !in fs.Vol().inodeMap
    ensures c !in TreeNow(fs) && c != 0 && c < 0x1_0000_0000
  {
  }

  lemma SameRoom(bs: nat, v0: Volume, v1: Volume, free: set<nat>, p: nat, c: nat, spare: nat)
    requires bs >= 4 && p in v0.inodes && Room(bs, v0, free, p, ENTRY_SIZE, spare)
    requires p in v1.inodes && v1.inodes[p] == v0.inodes[p]
    ensures Room(bs, v1, free, p, ENTRY_SIZE, spare)
  {
  }

  /** minix3_touch_reg: one plain, empty file more, under one new name. */
  method TouchReg(fs: FileStore, p: nat, fname: seq<byte>) returns (code: int, ghost c: u32)
    requires Ready(fs) && p in TreeNow(fs) && IsName(fname)
    requires IsDir(TreeNow(fs), p) && Absent(TreeNow(fs), p, fname) ==> CanCreate(fs, p, 0)
    modifies fs.dev.data, fs`zoneCursor, fs`inodeCursor, fs`owner
    ensures Ready(fs)
    ensures code == 2 <==> !IsDir(old(TreeNow(fs)), p)
    ensures code == 4 <==>
              IsDir(old(TreeNow(fs)), p) && exists e :: e in old(TreeNow(fs))[p].entries && e.ino != 0 && e.name == fname
    ensures code in {0, 2, 4}
    ensures code != 0 ==> fs.dev.Image() == old(fs.dev.Image())
    ensures code == 0 ==>
      && Addable(old(TreeNow(fs)), p, c, fname) && TreeNow(fs) == Touched(old(TreeNow(fs)), p, c, fname)
      && Step(old(TreeNow(fs)), Touch(p, c as nat, fname), TreeNow(fs))
      && c as nat in fs.Vol().inodes
      && fs.Vol().inodes[c as nat]
         == Inode(0x81ff, 1, 0xd000, 0xd000, 0, 0xaaaaaaaa, 0xcccccccc, 0x22222222, [0, 0, 0, 0, 0, 0, 0, 0, 0, 0])
  {
    hide Orderly, TreeOf, Meaning, Fits, WfTree, CanCreate, Absent, Addable;
    ghost var t := TreeNow(fs);
    code, c := TouchCommon(fs, p, fname, MODE_REGULAR + MODE_777, UID_MISHLER, GID_MISHLER, 0);
    if code == 0 {
      AbsentIs(t, p, fname);
      CanAdd(t, p, c, fname);
      AddKeepsTree(t, p, c, fname, Plain(1, []));
    }
  }

  lemma CanAdd(t: Tree, p: nat, c: nat, name: seq<byte>)
    requires IsDir(t, p) && Absent(t, p, name) && c !in t && c != 0 && IsName(name)
    ensures Addable(t, p, c, name)
  {
  }

  // ---- mkdir -----------------------------------------------------------------------

  lemma NewEntryFound(t: Tree, p: nat, c: u32, name: seq<byte>)
    requires WfTree(t) && Addable(t, p, c, name)
    ensures UniqueNames(t[p].entries + [Entry(c, name)])
    ensures Matches(t[p].entries + [Entry(c, name)], name, |t[p].entries|)
  {
    hide WfTree;
    DirOf(t, p);
    EntriesAdded(t[p].entries, Entry(c, name));
  }

  lemma StillReadable(sb: Superblock, es: seq<Entry>, e: Entry)
    requires Readable(sb, es) && InTable(sb, e.ino) && IsName(e.name)
    ensures Readable(sb, es + [e])
  {
  }

  /** Put inode i back with another link count; where no node has the number, no node changes. */
  method PutLinks(fs: FileStore, i: nat, f: Inode)
    requires Orderly(fs) && i in fs.Vol().inodes && f == fs.Vol().inodes[i].(nlinks := f.nlinks)
    modifies fs.dev.data
    ensures Orderly(fs)
    ensures TreeNow(fs) == if i in old(TreeNow(fs)) then old(TreeNow(fs))[i := Relinked(old(TreeNow(fs))[i], f.nlinks)]
                           else old(TreeNow(fs))
    ensures fs.Vol() == old(fs.Vol()).(inodes := old(fs.Vol()).inodes[i := f])
  {
    hide Fits, Meaning, Consistent, TreeOf, FileStore.Mounted, WholeEntries, Sized;
    ghost var v0 := fs.Vol();
    fs.PutInode(i, f);
    if i in TreeOf(v0, fs.bs) {
      DirectoryNodeOrFile(fs.bs, v0, i);
      Relink(fs.sb, fs.bs, v0, fs.owner, i, f.nlinks, fs.Vol());
    } else {
      NoNode(fs.bs, v0, i);
      RelinkUnmarked(fs.sb, fs.bs, v0, fs.owner, i, f, fs.Vol());
    }
  }

  lemma NoNode(bs: nat, v: Volume, i: nat)
    requires AllWf(v) && bs >= 4 && i in v.inodes && i !in TreeOf(v, bs)
    ensures i !in v.inodeMap
  {
  }

  lemma DirectoryNodeOrFile(bs: nat, v: Volume, i: nat)
    requires AllWf(v) && bs >= 4 && i in TreeOf(v, bs)
    ensures i in v.inodes && i in FilesOf(v, bs) && v.inodes[i].Wf()
  {
  }

  /** A new directory takes one block, or two when a block holds a single entry. */
  ghost function DotZones(bs: nat): nat
  {
    if bs == 0 then 0 else Count(2 * ENTRY_SIZE, bs)
  }

  lemma DotZonesBounds(bs: nat)
    requires bs >= 64 && bs % 64 == 0
    ensures Count(0, bs) == 0 && Count(ENTRY_SIZE, bs) == 1 && DotZones(bs) == if bs >= 128 then 1 else 2
  {
    hide Count;
    assert Times(1, bs) == bs && Times(2, bs) == 2 * bs;
    CountBounds(0, bs);
    CountOf(ENTRY_SIZE, bs, 1);
    CountOf(2 * ENTRY_SIZE, bs, if bs >= 128 then 1 else 2);
  }

  lemma FirstZonesNeeded(ppz: nat, m: nat)
    requires ppz > 0
    ensures ZonesNeeded(ppz, 0, 0) == ZonesNeeded(ppz, 1, 1) == 0 && ZonesNeeded(ppz, 0, 1) == ZonesNeeded(ppz, 1, 2) == 1
  {
    assert NewSlots(ppz, 0) == {Data(0)} && NewSlots(ppz, 1) == {Data(1)};
    assert ZonesNeeded(ppz, 0, 1) == |NewSlots(ppz, 0)| + ZonesNeeded(ppz, 1, 1);
    assert ZonesNeeded(ppz, 1, 2) == |NewSlots(ppz, 1)| + ZonesNeeded(ppz, 2, 2);
  }

  /** Room for "." and then for ".." in a new directory. */
  lemma RoomForDots(bs: nat, v: Volume, free: set<nat>, c: nat)
    requires bs >= 64 && bs % 64 == 0 && c in v.inodes
    ensures v.inodes[c].size == 0 && |free| >= DotZones(bs) ==> Room(bs, v, free, c, ENTRY_SIZE, DotZones(bs) - 1)
    ensures v.inodes[c].size == ENTRY_SIZE && |free| >= DotZones(bs) - 1 ==> Room(bs, v, free, c, ENTRY_SIZE, 0)
  {
    hide ZonesNeeded, Count;
    DotZonesBounds(bs);
    FirstZonesNeeded(bs / 4, 1);
  }

  /** The size of a directory is the size of its entries. */
  lemma DirSize(fs: FileStore, d: nat)
    requires Orderly(fs) && IsDir(TreeNow(fs), d)
    ensures d in fs.Vol().inodes && fs.Vol().inodes[d].size == |TreeNow(fs)[d].entries| * ENTRY_SIZE
    ensures fs.bs % 64 == 0
  {
    hide Fits, Meaning, Consistent, TreeOf, Count, FileStore.Mounted, WholeEntries, FilesOf, Sized;
    DirectoryNode(fs.bs, fs.Vol(), d);
    ConsistentFacts(fs.sb, fs.bs, fs.Vol(), fs.owner, d);
    EntriesCovered(fs.sb, fs.bs, fs.Vol(), fs.owner, d);
  }

  /** "." and ".." in a new, empty directory. */
  method AppendDots(fs: FileStore, p: u32, c: u32)
    requires Orderly(fs) && IsDir(TreeNow(fs), c) && TreeNow(fs)[c].entries == [] && |Free(fs)| >= DotZones(fs.bs)
    requires c as nat in fs.Vol().inodes
    modifies fs.dev.data, fs`zoneCursor, fs`owner
    ensures Orderly(fs)
    ensures TreeNow(fs)
         == old(TreeNow(fs))[c := Directory(old(TreeNow(fs))[c].nlinks, [Entry(c, DOT), Entry(p, DOT_DOT)])]
    ensures c as nat in fs.Vol().inodes && fs.Vol().inodes[c as nat].mode == old(fs.Vol()).inodes[c as nat].mode
  {
    hide Fits, Meaning, Consistent, TreeOf, FileStore.Mounted, WholeEntries, Sized, Room, FreeAhead, EncodeEntry, DotZones;
    ghost var t := TreeNow(fs);
    DirSize(fs, c);
    DotZonesBounds(fs.bs);
    RoomForDots(fs.bs, fs.Vol(), Free(fs), c);
    var newDot := NewEntry(c, DOT);
    var newDotDot := NewEntry(p, DOT_DOT);
    AppendEntry(fs, c, newDot, Entry(c, DOT), DotZones(fs.bs) - 1);
    DirSize(fs, c);
    RoomForDots(fs.bs, fs.Vol(), Free(fs), c);
    AppendEntry(fs, c, newDotDot, Entry(p, DOT_DOT), 0);
    assert [] + [Entry(c, DOT)] + [Entry(p, DOT_DOT)] == [Entry(c, DOT), Entry(p, DOT_DOT)];
  }

  /** The links and entries that make a directory of the node touch created under p. */
  method FurnishDirectory(fs: FileStore, p: nat, dirname: seq<byte>, ghost t: Tree, ghost c: u32)
    requires Orderly(fs) && WfTree(t) && Addable(t, p, c, dirname) && p < 0x1_0000_0000
    requires TreeNow(fs) == Entered(t, p, c, dirname, Directory(1, []))
    requires Readable(fs.sb, t[p].entries) && |Free(fs)| >= DotZones(fs.bs) && c as nat in fs.Vol().inodes
    modifies fs.dev.data, fs`zoneCursor, fs`owner
    ensures Orderly(fs) && TreeNow(fs) == Made(t, p, c, dirname)
    ensures c as nat in fs.Vol().inodes && fs.Vol().inodes[c as nat].mode == old(fs.Vol()).inodes[c as nat].mode
  {
    hide Orderly, TreeOf, Meaning, Fits, WfTree, Readable, LastBlockMatch, Count, UniqueNames, FreeAhead, DotZones, Made,
      Entered, Relinked;
    EnteredFacts(t, p, c, dirname, Directory(1, []));
    TreeInTable(fs, p);
    TreeInTable(fs, c);
    NewEntryFound(t, p, c, dirname);
    StillReadable(fs.sb, t[p].entries, Entry(c, dirname));
    LookupSaysAbsent(fs, p, dirname);
    OrderlyIsMounted(fs);
    var dir := fs.GetInode(p);
    var _, newInodeNum, newInode := GetInodeFromName(fs, dir, dirname, p);
    assert newInodeNum == c;
    newInode := newInode.(nlinks := (newInode.nlinks + 1) % 0x1_0000);
    dir := dir.(nlinks := (dir.nlinks + 1) % 0x1_0000);
    ghost var t1 := TreeNow(fs);
    assert dir.nlinks == (t[p].nlinks + 1) % 0x1_0000 && newInode.nlinks == 2;
    PutLinks(fs, p, dir);
    ghost var t2 := TreeNow(fs);
    PutLinks(fs, newInodeNum, newInode);
    ghost var t3 := TreeNow(fs);
    HalfFurnished(t, p, c, dirname, t1, t2, t3);
    AppendDots(fs, p, newInodeNum);
    Furnished(t, p, c, dirname, t1, t2, t3, TreeNow(fs));
  }

  lemma EnteredFacts(t: Tree, p: nat, c: u32, name: seq<byte>, node: Node)
    requires IsDir(t, p) && c !in t
    ensures var t1 := Entered(t, p, c, name, node);
            p in t1 && t1[p] == Directory(t[p].nlinks, t[p].entries + [Entry(c, name)]) && c in t1 && t1[c] == node
  {
  }

  lemma HalfFurnished(t: Tree, p: u32, c: u32, name: seq<byte>, t1: Tree, t2: Tree, t3: Tree)
    requires IsDir(t, p) && c !in t && t1 == Entered(t, p, c, name, Directory(1, []))
    requires t2 == t1[p := Relinked(t1[p], (t[p].nlinks + 1) % 0x1_0000)] && c in t2 && t3 == t2[c := Relinked(t2[c], 2)]
    ensures IsDir(t3, c) && t3[c].entries == []
  {
  }

  /** Entered, linked once more at both ends, and given its two entries, a directory is made. */
  lemma Furnished(t: Tree, p: u32, c: u32, name: seq<byte>, t1: Tree, t2: Tree, t3: Tree, t4: Tree)
    requires IsDir(t, p) && c !in t && t1 == Entered(t, p, c, name, Directory(1, []))
    requires t2 == t1[p := Relinked(t1[p], (t[p].nlinks + 1) % 0x1_0000)] && c in t2 && t3 == t2[c := Relinked(t2[c], 2)]
    requires c in t3 && t4 == t3[c := Directory(t3[c].nlinks, [Entry(c, DOT), Entry(p, DOT_DOT)])]
    ensures t4 == Made(t, p, c, name)
  {
  }

  lemma OrderlyIsMounted(fs: FileStore)
    requires Orderly(fs)
    ensures fs.Mounted() && fs.bs >= 64
  {
  }

  /**
   * minix3_mkdir: one directory more, holding "." and "..", under one new name.  What is left is a tree unless the
   * parent had as many links as its 16-bit count can hold.
   */
  method Mkdir(fs: FileStore, p: nat, dirname: seq<byte>) returns (code: int, ghost c: u32)
    requires Ready(fs) && p in TreeNow(fs) && IsName(dirname) && p < 0x1_0000_0000
    requires IsDir(TreeNow(fs), p) && Absent(TreeNow(fs), p, dirname) ==> CanCreate(fs, p, DotZones(fs.bs))
    modifies fs.dev.data, fs`zoneCursor, fs`inodeCursor, fs`owner
    ensures Orderly(fs)
    ensures Ready(fs) <==> !(code == 0 && old(TreeNow(fs))[p].nlinks == 0xffff)
    ensures code == 2 <==> !IsDir(old(TreeNow(fs)), p)
    ensures code == 4 <==>
              IsDir(old(TreeNow(fs)), p) && exists e :: e in old(TreeNow(fs))[p].entries && e.ino != 0 && e.name == dirname
    ensures code in {0, 2, 4}
    ensures code != 0 ==> fs.dev.Image() == old(fs.dev.Image())
    ensures code == 0 ==>
      && Addable(old(TreeNow(fs)), p, c, dirname) && TreeNow(fs) == Made(old(TreeNow(fs)), p, c, dirname)
      && (old(TreeNow(fs))[p].nlinks < 0xffff ==> Step(old(TreeNow(fs)), MakeDir(p, c as nat, dirname), TreeNow(fs)))
      && c as nat in fs.Vol().inodes && fs.Vol().inodes[c as nat].mode == 0x41ff
  {
    hide Orderly, TreeOf, Meaning, Fits, WfTree, CanCreate, Absent, Addable, Readable, DotZones, Entered, Made;
    ghost var t := TreeNow(fs);
    TreeInTable(fs, p);
    if IsDir(t, p) { DirReadable(fs, p); }
    code, c := TouchCommon(fs, p, dirname, MODE_DIRECTORY + MODE_777, UID_MISHLER, GID_MISHLER, DotZones(fs.bs));
    if code != 0 {
      return;
    }
    AbsentIs(t, p, dirname);
    CanAdd(t, p, c, dirname);
    FurnishDirectory(fs, p, dirname, t, c);
    MadeIsTree(t, p, c, dirname);
  }

  lemma MadeIsTree(t: Tree, p: u32, c: u32, name: seq<byte>)
    requires WfTree(t) && Addable(t, p, c, name) && t[p].nlinks <= 0xffff
    ensures WfTree(Made(t, p, c, name)) <==> t[p].nlinks != 0xffff
  {
    hide WfTree;
    if t[p].nlinks == 0xffff {
      LinksOverflow(t, p, c, name);
    } else {
      AddKeepsTree(t, p, c, name, Directory(2, [Entry(c, DOT), Entry(p, DOT_DOT)]));
    }
  }

  // ---- rm ------------------------------------------------------------------------------

  /** The node a name in directory p leads to. */
  ghost function LookedUp(t: Tree, p: nat, name: seq<byte>): Option<nat>
    requires WfTree(t)
  {
    if IsDir(t, p) then
      DirOf(t, p);
      if name in View(t[p].entries) then Some(View(t[p].entries)[name]) else None
    else None
  }

  /** Entry x of directory p carries the name and points at node c. */
  predicate LeadsTo(t: Tree, p: nat, name: seq<byte>, x: nat, c: nat)
  {
    IsDir(t, p) && Matches(t[p].entries, name, x) && t[p].entries[x].ino == c && c in t
  }

  lemma LookedUpAt(t: Tree, p: nat, name: seq<byte>, x: nat, c: nat)
    requires WfTree(t) && LeadsTo(t, p, name, x, c)
    ensures LookedUp(t, p, name) == Some(c)
  {
    hide WfTree;
    DirOf(t, p);
    ViewAt(t[p].entries, x);
  }

  /** A name leads to one node only. */
  lemma LeadsOnce(t: Tree, p: nat, name: seq<byte>, x: nat, c: nat)
    requires WfTree(t) && LeadsTo(t, p, name, x, c)
    ensures forall y: nat, d: nat :: LeadsTo(t, p, name, y, d) ==> d == c
  {
    hide WfTree, LeadsTo, LookedUp;
    LookedUpAt(t, p, name, x, c);
    forall y: nat, d: nat | LeadsTo(t, p, name, y, d) ensures d == c {
      LookedUpAt(t, p, name, y, d);
    }
  }

  lemma LeadsNowhere(t: Tree, p: nat, name: seq<byte>)
    requires WfTree(t) && LookedUp(t, p, name) == None
    ensures forall y: nat, d: nat :: !LeadsTo(t, p, name, y, d)
  {
    hide WfTree, LeadsTo, LookedUp;
    forall y: nat, d: nat ensures !LeadsTo(t, p, name, y, d) {
      if LeadsTo(t, p, name, y, d) {
        LookedUpAt(t, p, name, y, d);
      }
    }
  }

  lemma NotLookedUp(t: Tree, p: nat, name: seq<byte>)
    requires WfTree(t) && IsDir(t, p) && Absent(t, p, name)
    ensures LookedUp(t, p, name) == None
  {
    hide WfTree;
    DirOf(t, p);
    if name in View(t[p].entries) {
      var x := ViewOf(t[p].entries, name);
    }
  }

  /** A file without data zones holds no zone at all. */
  lemma HoldsNothing(zs: Zones, ppz: nat, files: Files, owner: Owners, i: nat)
    requires ppz > 0 && Owned(zs, ppz, files, owner) && i in files && files[i].count == 0 && files[i].inode.Wf()
    ensures Held(owner, i) == {}
  {
    forall z | z in owner ensures owner[z].0 != i {
      HolderIsLive(zs, ppz, files, owner, z);
    }
  }

  lemma HolderIsLive(zs: Zones, ppz: nat, files: Files, owner: Owners, z: nat)
    requires ppz > 0 && Owned(zs, ppz, files, owner) && z in owner
    ensures owner[z].0 in files && Live(ppz, files[owner[z].0].count, owner[z].1)
  {
    assert Holds(zs, ppz, files, owner[z].0, owner[z].1, z);
  }

  lemma GivenUp(sb: Superblock, bs: nat, v0: Volume, owner: Owners, c: nat)
    requires AllWf(v0) && Consistent(sb, bs, v0, owner) && c in FilesOf(v0, bs)
    ensures bs >= 64 && bs % 64 == 0 && Coherent(sb, bs, v0, FilesOf(v0, bs), owner) && v0.inodes[c].Wf()
    ensures FilesOf(v0, bs)[c] == File(v0.inodes[c], Count(v0.inodes[c].size, bs))
    ensures v0.inodes[c].size == 0 ==> Held(owner, c) == {}
  {
    CountBounds(v0.inodes[c].size, bs);
    if v0.inodes[c].size == 0 {
      HoldsNothing(v0.zones, bs / 4, FilesOf(v0, bs), owner, c);
    }
  }

  /** Node c gone from the volume: its zones and its inode are free. */
  lemma NodeGone(fs: FileStore, v0: Volume, owner0: Owners, c: nat)
    requires fs.Mounted() && fs.bs >= 64 && AllWf(v0) && Consistent(fs.sb, fs.bs, v0, owner0) && WholeEntries(v0)
    requires fs.Vol() == v0.(zoneMap := v0.zoneMap - Held(owner0, c), inodeMap := v0.inodeMap - {c})
    requires fs.owner == OwnedByOthers(owner0, c)
    ensures Orderly(fs) && TreeNow(fs) == TreeOf(v0, fs.bs) - {c}
  {
    hide Fits, Meaning, Consistent, TreeOf, FileStore.Mounted, WholeEntries, OwnedByOthers, Held;
    GiveUp(fs.sb, fs.bs, v0, owner0, c, fs.Vol());
  }

  /** rm's half of forgetting a file: its zones and its inode become free. */
  method ReleaseFile(fs: FileStore, c: nat, child: Inode)
    requires Orderly(fs) && c in TreeNow(fs) && c in fs.Vol().inodes && child == fs.Vol().inodes[c] && InTable(fs.sb, c)
    requires Count(child.size, fs.bs) <= IDZONE + fs.bs / 4
    modifies fs.dev.data, fs`owner
    ensures Orderly(fs) && TreeNow(fs) == old(TreeNow(fs)) - {c}
    ensures fs.Vol().inodes == old(fs.Vol()).inodes
    ensures fs.Vol().inodeMap == old(fs.Vol()).inodeMap - {c}
    ensures fs.Vol().zoneMap == old(fs.Vol()).zoneMap - Held(old(fs.owner), c)
  {
    hide Fits, Meaning, Consistent, TreeOf, FileStore.Mounted, WholeEntries, Sized, Held, FilesOf, Coherent, Count, Owned;
    ghost var v0, owner0 := fs.Vol(), fs.owner;
    DirectoryNodeOrFile(fs.bs, v0, c);
    GivenUp(fs.sb, fs.bs, v0, owner0, c);
    if child.size > 0 {
      var _ := ClearAllZones(fs, child, FilesOf(v0, fs.bs), c);
    }
    assert fs.Vol() == v0.(zoneMap := v0.zoneMap - Held(owner0, c));
    var _ := SetInodeAs(fs, c, false);
    fs.owner := OwnedByOthers(fs.owner, c);
    NodeGone(fs, v0, owner0, c);
  }

  /** In a tree, only one entry of p has the number of what a name of p leads to. */
  lemma OneEntryHas(t: Tree, p: nat, x: nat, c: nat)
    requires WfTree(t) && Removable(t, p, x, c)
    ensures p != c && OnlyEntry(t[p].entries, x, c)
  {
    hide WfTree;
    NamesRemoved(t, p, x, c, p, x, c);
    forall y | 0 <= y < |t[p].entries| && y != x ensures t[p].entries[y].ino != c {
      EntryStays(t, p, x, c, p, y);
    }
  }

  /** A plain file's entry is none of "." and "..". */
  lemma FileRemovable(t: Tree, p: nat, name: seq<byte>, x: nat, c: nat)
    requires WfTree(t) && LeadsTo(t, p, name, x, c) && t[c].Plain?
    ensures Removable(t, p, x, c)
  {
    hide WfTree;
    DirOf(t, p);
    ParentIsDir(t, p);
  }

  /** Forgetting node c in its directory, once its inode is free. */
  lemma RemovedNow(t: Tree, p: nat, x: nat, c: nat, t1: Tree, t2: Tree)
    requires WfTree(t) && Removable(t, p, x, c) && t[c].Plain? && t1 == t - {c} && p != c
    requires t2 == t1[p := Directory(t[p].nlinks, t[p].entries[x := Entry(0, t[p].entries[x].name)])]
    ensures t2 == Removed(t, p, x, c)
  {
  }

  /** What the return code of the lookup says about the entry it found. */
  lemma FoundKind(fs: FileStore, p: nat, name: seq<byte>, m: Option<nat>, retval: int, c: nat)
    requires Ready(fs) && IsDir(TreeNow(fs), p)
    requires m.None? <==> retval == NOT_FOUND
    requires m.None? ==> Absent(TreeNow(fs), p, name)
    requires m.Some? ==> Matches(TreeNow(fs)[p].entries, name, m.value) && c == TreeNow(fs)[p].entries[m.value].ino
                         && c in fs.Vol().inodes
                         && retval == if IsDirectory(fs.Vol().inodes[c]) then FOUND_DIRECTORY else NOT_DIRECTORY
    ensures m.Some? ==> LeadsTo(TreeNow(fs), p, name, m.value, c) && (IsDir(TreeNow(fs), c) <==> retval == FOUND_DIRECTORY)
    ensures LookedUp(TreeNow(fs), p, name) == if m.Some? then Some(c) else None
  {
    hide Orderly, TreeOf, Meaning, Fits, WfTree, LookedUp;
    DirOf(TreeNow(fs), p);
    if m.Some? {
      assert EntryOk(TreeNow(fs), TreeNow(fs)[p].entries[m.value]);
      TreeInTable(fs, c);
      LookedUpAt(TreeNow(fs), p, name, m.value, c);
    } else {
      NotLookedUp(TreeNow(fs), p, name);
    }
  }

  /** The lookup of an operation that then removes: which entry it found, and what that leads to. */
  method FindChild(fs: FileStore, dir: Inode, name: seq<byte>, ghost p: nat)
    returns (retval: int, c: nat, child: Inode, ghost x: nat)
    requires Ready(fs) && IsDir(TreeNow(fs), p) && IsString(name) && p in fs.Vol().inodes && dir == fs.Vol().inodes[p]
    modifies fs`zoneCursor
    ensures Ready(fs) && fs.dev.Image() == old(fs.dev.Image()) && TreeNow(fs) == old(TreeNow(fs))
    ensures fs.Vol() == old(fs.Vol())
    ensures retval == NOT_FOUND <==> LookedUp(TreeNow(fs), p, name).None?
    ensures retval in {NOT_FOUND, FOUND_DIRECTORY, NOT_DIRECTORY}
    ensures retval != NOT_FOUND ==>
      && LookedUp(TreeNow(fs), p, name) == Some(c) && LeadsTo(TreeNow(fs), p, name, x, c)
      && c < 0x1_0000_0000 && InTable(fs.sb, c) && c in fs.Vol().inodes && child == fs.Vol().inodes[c]
      && (retval == FOUND_DIRECTORY <==> IsDir(TreeNow(fs), c))
  {
    hide Orderly, TreeOf, Meaning, Fits, WfTree, Readable, LastBlockMatch, Count, UniqueNames, LookedUp;
    ghost var t := TreeNow(fs);
    OrderlyIsMounted(fs);
    DirReadable(fs, p);
    LookupSaysAbsent(fs, p, name);
    retval, c, child := GetInodeFromName(fs, dir, name, p);
    ghost var m := LastBlockMatch(t[p].entries, name, fs.bs / ENTRY_SIZE, Count(dir.size, fs.bs));
    FoundKind(fs, p, name, m, retval, c);
    x := if m.Some? then m.value else 0;
    if retval != NOT_FOUND { TreeInTable(fs, c); }
  }

  /**
   * minix3_rm, of a file without doubly indirect zones: the name and the node go, the file's zones and its inode
   * become free, and every other file and directory stays as it was.
   */
  method Rm(fs: FileStore, p: nat, fname: seq<byte>) returns (code: int, ghost x: nat, ghost c: nat)
    requires Ready(fs) && p in TreeNow(fs) && IsString(fname)
    requires forall y: nat, d: nat :: LeadsTo(TreeNow(fs), p, fname, y, d) && TreeNow(fs)[d].Plain? && d in fs.Vol().inodes ==>
               Count(fs.Vol().inodes[d].size, fs.bs) <= 7 + fs.bs / 4
    modifies fs.dev.data, fs`zoneCursor, fs`owner
    ensures Ready(fs)
    ensures code == 0 <==>
              exists y: nat, d: nat :: LeadsTo(old(TreeNow(fs)), p, fname, y, d) && old(TreeNow(fs))[d].Plain?
    ensures code == 2 <==> !IsDir(old(TreeNow(fs)), p)
    ensures code in {0, 2, 103}
    ensures code != 0 ==> fs.dev.Image() == old(fs.dev.Image())
    ensures code == 0 ==>
      && LeadsTo(old(TreeNow(fs)), p, fname, x, c) && Step(old(TreeNow(fs)), Remove(p, x, c), TreeNow(fs))
      && fs.Vol().zoneMap == old(fs.Vol()).zoneMap - Held(old(fs.owner), c)
      && fs.Vol().inodeMap == old(fs.Vol()).inodeMap - {c}
  {
    hide Orderly, TreeOf, Meaning, Fits, WfTree, Count, Held, Removed, Removable, OnlyEntry, LookedUp;
    x, c := 0, 0;
    ghost var t, owner0 := TreeNow(fs), fs.owner;
    OrderlyIsMounted(fs);
    TreeInTable(fs, p);
    var dir := fs.GetInode(p);
    if !IsDirectory(dir) {
      return NOT_A_DIRECTORY, x, c;
    }
    var retval, childInodeNum, childInode;
    retval, childInodeNum, childInode, x := FindChild(fs, dir, fname, p);
    if retval == NOT_FOUND { LeadsNowhere(t, p, fname); } else { LeadsOnce(t, p, fname, x, childInodeNum); }
    if retval != NOT_DIRECTORY {
      return IS_DIRECTORY, x, c;
    }
    FileRemovable(t, p, fname, x, childInodeNum);
    OneEntryHas(t, p, x, childInodeNum);
    ReleaseFile(fs, childInodeNum, childInode);
    ghost var t1 := TreeNow(fs);
    DropEntry(fs, dir, childInodeNum, p, x, true);
    RemovedNow(t, p, x, childInodeNum, t1, TreeNow(fs));
    RemoveKeepsTree(t, p, x, childInodeNum);
    return 0, x, childInodeNum;
  }

  // ---- rmdir ---------------------------------------------------------------------------

  /** minix3_rmdir_check; it looks "." up twice and ".." never. */
  method RmdirCheck(fs: FileStore, dirNode: Inode, ghost d: nat) returns (code: int)
    requires Ready(fs) && IsDir(TreeNow(fs), d) && d in fs.Vol().inodes && dirNode == fs.Vol().inodes[d]
    modifies fs`zoneCursor
    ensures Ready(fs) && fs.dev.Image() == old(fs.dev.Image()) && TreeNow(fs) == old(TreeNow(fs))
    ensures fs.Vol() == old(fs.Vol())
    ensures code == if |TreeNow(fs)[d].entries| == 2 then 0 else NOT_EMPTY
  {
    hide Orderly, TreeOf, Meaning, Fits, WfTree, LookedUp;
    DirSize(fs, d);
    if dirNode.size != 2 * ENTRY_SIZE {
      return NOT_EMPTY;
    }
    DotIsDirectory(TreeNow(fs), d);
    var retvalDot, _, _, _ := FindChild(fs, dirNode, DOT, d);
    var retvalDotDot, _, _, _ := FindChild(fs, dirNode, DOT, d);
    if retvalDot != 0 || retvalDotDot != 0 {
      return UNKNOWN_ERROR;
    }
    return 0;
  }

  lemma DotIsDirectory(t: Tree, d: nat)
    requires WfTree(t) && IsDir(t, d)
    ensures LookedUp(t, d, DOT) == Some(d)
  {
    hide WfTree, LookedUp;
    DirOf(t, d);
    NotZero(t);
    LookedUpAt(t, d, DOT, 0, d);
  }

  /** A directory rmdir accepts is an empty one below p, unless its name is ".". */
  lemma DirRemovable(t: Tree, p: nat, name: seq<byte>, x: nat, c: nat)
    requires WfTree(t) && LeadsTo(t, p, name, x, c) && IsDir(t, c) && |t[c].entries| == 2 && c != ROOT && name != DOT
    ensures Removable(t, p, x, c)
  {
    hide WfTree;
    DirOf(t, p);
    if x == 1 {
      if p == ROOT {
        NotZero(t);
      } else {
        var e, y := NameOf(t, p);
        NamedExists(t, e, y, p);
      }
    }
  }

  /** A file of one data zone holds just that zone. */
  lemma HoldsOne(sb: Superblock, bs: nat, v: Volume, owner: Owners, c: nat)
    requires AllWf(v) && Consistent(sb, bs, v, owner) && c in FilesOf(v, bs) && FilesOf(v, bs)[c].count == 1
    ensures v.inodes[c].Wf() && Held(owner, c) == {v.inodes[c].zones[0] as nat} && InZones(sb, v.inodes[c].zones[0])
  {
    hide Held, HeldUpTo, MaxZones;
    var ppz, files := bs / 4, FilesOf(v, bs);
    HeldAll(v.zones, ppz, files, owner, c);
    NothingHeld(owner, c);
    DirectSlot(v.zones, ppz, files, c, 0);
    HeldNext(v.zones, ppz, files, owner, c, 0, false);
  }

  /** minix3_clear_zone, of a direct zone; the pointer is cleared in the inode in memory only. */
  method ClearZone(fs: FileStore, f0: Inode, index: nat, ghost n: nat) returns (f: Inode)
    requires Walkable(fs, f0, n) && n == Count(f0.size, fs.bs) && index < IDZONE && f0.Wf() && InZones(fs.sb, f0.zones[index])
    modifies fs.dev.data, fs`zoneCursor
    ensures fs.Mounted() && fs.zoneCursor == old(fs.zoneCursor)
    ensures fs.Vol() == old(fs.Vol()).(zoneMap := old(fs.Vol()).zoneMap - {f0.zones[index] as nat})
    ensures f == f0.(zones := f0.zones[index := 0])
  {
    hide Fits, Meaning, Dense, Unshared, Count, Sized, SlotZone, FileStore.Mounted, CanHang, FreeAhead;
    var cleared, same, left;
    ghost var given;
    cleared, same, left, given := ZoneWalker(fs, f0, index, false, 0, n);
    var _ := fs.SetZoneAs(cleared, false);
    cleared, f, left, given := ZoneWalker(fs, f0, index, true, 0, n);
  }

  /** rmdir's half of forgetting a directory: its one zone and its inode become free. */
  method ReleaseDirectory(fs: FileStore, c: nat, child: Inode)
    requires Orderly(fs) && c in TreeNow(fs) && c in fs.Vol().inodes && child == fs.Vol().inodes[c] && InTable(fs.sb, c)
    requires Count(child.size, fs.bs) == 1
    modifies fs.dev.data, fs`owner, fs`zoneCursor
    ensures Orderly(fs) && TreeNow(fs) == old(TreeNow(fs)) - {c}
    ensures fs.Vol().inodes == old(fs.Vol()).inodes
    ensures fs.Vol().inodeMap == old(fs.Vol()).inodeMap - {c}
    ensures fs.Vol().zoneMap == old(fs.Vol()).zoneMap - Held(old(fs.owner), c)
    ensures Loose(fs.sb, fs.bs, fs.Vol(), fs.owner, child, fs.Vol())
  {
    hide Fits, Meaning, Consistent, TreeOf, FileStore.Mounted, WholeEntries, Sized, Held, FilesOf, Coherent, Count, Owned,
      Sound, Loose;
    ghost var v0, owner0 := fs.Vol(), fs.owner;
    DirectoryNodeOrFile(fs.bs, v0, c);
    GivenUp(fs.sb, fs.bs, v0, owner0, c);
    HoldsOne(fs.sb, fs.bs, v0, owner0, c);
    ConsistentFacts(fs.sb, fs.bs, v0, owner0, c);
    var _ := ClearZone(fs, child, 0, 1);
    assert fs.Vol() == v0.(zoneMap := v0.zoneMap - Held(owner0, c));
    var _ := SetInodeAs(fs, c, false);
    fs.owner := OwnedByOthers(fs.owner, c);
    NodeGone(fs, v0, owner0, c);
    NowLoose(fs, v0, owner0, c);
  }

  lemma NowLoose(fs: FileStore, v0: Volume, owner0: Owners, c: nat)
    requires Orderly(fs) && fs.owner == OwnedByOthers(owner0, c) && c in v0.inodes
    requires Sound(fs.sb, fs.bs, v0, v0.inodes[c], 1) && Count(v0.inodes[c].size, fs.bs) == 1
    requires fs.Vol().zones == v0.zones && v0.inodes[c].Wf()
    requires v0.inodes[c].zones[0] in Held(owner0, c)
    ensures Loose(fs.sb, fs.bs, fs.Vol(), fs.owner, v0.inodes[c], fs.Vol())
  {
    hide Fits, Meaning, Consistent, TreeOf, FileStore.Mounted, WholeEntries, Sized, Count;
  }

  /** Forgetting directory c in p, once its inode is free, and unlinking it from p. */
  lemma DirRemovedNow(t: Tree, p: nat, x: nat, c: nat, t1: Tree, t2: Tree, t3: Tree)
    requires WfTree(t) && Removable(t, p, x, c) && IsDir(t, c) && t1 == t - {c} && p != c
    requires t2 == t1[p := Directory(t[p].nlinks, t[p].entries[x := Entry(0, t[p].entries[x].name)])]
    requires p in t2 && t3 == t2[p := Relinked(t2[p], t[p].nlinks - 1)]
    ensures t3 == Removed(t, p, x, c)
  {
  }

  /** The last block of a directory of two entries. */
  lemma LastDirZone(bs: nat)
    requires bs >= 64 && bs % 64 == 0
    ensures Count(2 * ENTRY_SIZE, bs) == if bs >= 2 * ENTRY_SIZE then 1 else 2
  {
    DotZonesBounds(bs);
  }

  /** minix3_get_last_file_zone, on the inode of an existing node. */
  method LastZoneOf(fs: FileStore, f: Inode, ghost c: nat) returns (zone: nat)
    requires Orderly(fs) && c in TreeNow(fs) && c in fs.Vol().inodes && f == fs.Vol().inodes[c]
    modifies fs`zoneCursor
    ensures fs.zoneCursor == old(fs.zoneCursor)
    ensures zone == if Count(f.size, fs.bs) == 0 then 0 else Count(f.size, fs.bs) - 1
  {
    hide Fits, Meaning, Consistent, TreeOf, FileStore.Mounted, WholeEntries, Sized, FilesOf, Count, Sound;
    DirectoryNodeOrFile(fs.bs, fs.Vol(), c);
    ConsistentFacts(fs.sb, fs.bs, fs.Vol(), fs.owner, c);
    zone := GetLastFileZone(fs, f, Count(f.size, fs.bs));
  }

  /** What rmdir does once all its checks have passed; `kept` says whether p itself is still there at the end. */
  method ForgetDirectory(fs: FileStore, p: nat, dir: Inode, c: u32, child: Inode, ghost x: nat, ghost kept: bool)
    requires Ready(fs) && IsDir(TreeNow(fs), p) && IsDir(TreeNow(fs), c) && c != ROOT
    requires if kept then Removable(TreeNow(fs), p, x, c) else p == c
    requires p in fs.Vol().inodes && dir == fs.Vol().inodes[p] && c in fs.Vol().inodes && child == fs.Vol().inodes[c]
    requires Count(child.size, fs.bs) == 1
    modifies fs.dev.data, fs`zoneCursor, fs`owner
    ensures Orderly(fs)
    ensures kept ==> WfTree(TreeNow(fs)) && Step(old(TreeNow(fs)), Remove(p, x, c), TreeNow(fs))
    ensures !kept ==> !WfTree(TreeNow(fs)) && TreeNow(fs) == old(TreeNow(fs)) - {c}
    ensures fs.Vol().zoneMap == old(fs.Vol()).zoneMap - Held(old(fs.owner), c)
    ensures fs.Vol().inodeMap == old(fs.Vol()).inodeMap - {c}
  {
    hide Orderly, TreeOf, Meaning, Fits, WfTree, Count, Held, Removed, OnlyEntry, Loose;
    ghost var t := TreeNow(fs);
    TreeInTable(fs, p);
    TreeInTable(fs, c);
    if kept { OneEntryHas(t, p, x, c); } else { NameWithoutNode(t, c); }
    ReleaseDirectory(fs, c, child);
    ghost var t1 := TreeNow(fs);
    DropEntry(fs, dir, c, p, x, kept);
    ghost var t2 := TreeNow(fs);
    PutLinks(fs, p, dir.(nlinks := (dir.nlinks + 0xffff) % 0x1_0000));
    if kept {
      DirRemovedNow(t, p, x, c, t1, t2, TreeNow(fs));
      RemoveKeepsTree(t, p, x, c);
    }
  }

  /**
   * minix3_rmdir: the name and the empty directory go, its zone and its inode become free, and every other file and
   * directory stays as it was.  The name "." of an empty directory other than the root is accepted too, and then, and
   * only then, what is left is no tree: the directory's name in its parent leads nowhere.
   */
  method Rmdir(fs: FileStore, p: nat, dirname: seq<byte>) returns (code: int, ghost x: nat, ghost c: nat)
    requires Ready(fs) && p in TreeNow(fs) && IsString(dirname)
    modifies fs.dev.data, fs`zoneCursor, fs`owner
    ensures Orderly(fs)
    ensures code == 2 <==> !IsDir(old(TreeNow(fs)), p)
    ensures code == 101 <==>
              IsDir(old(TreeNow(fs)), p) && forall y: nat, d: nat :: !LeadsTo(old(TreeNow(fs)), p, dirname, y, d)
    ensures code == 102 <==>
              exists y: nat, d: nat :: LeadsTo(old(TreeNow(fs)), p, dirname, y, d) && old(TreeNow(fs))[d].Plain?
    ensures code == 104 <==>
              exists y: nat, d: nat :: && LeadsTo(old(TreeNow(fs)), p, dirname, y, d)
                                       && IsDir(old(TreeNow(fs)), d) && |old(TreeNow(fs))[d].entries| != 2
    ensures code == 0 <==>
              exists y: nat, d: nat :: && LeadsTo(old(TreeNow(fs)), p, dirname, y, d)
                                       && IsDir(old(TreeNow(fs)), d) && |old(TreeNow(fs))[d].entries| == 2
                                       && d != 1 && fs.bs >= 128
    ensures code in {0, 2, 101, 102, 104, 105}
    ensures Ready(fs) <==> !(code == 0 && dirname == DOT)
    ensures code != 0 ==> fs.dev.Image() == old(fs.dev.Image())
    ensures code == 0 ==>
      && fs.Vol().zoneMap == old(fs.Vol()).zoneMap - Held(old(fs.owner), c)
      && fs.Vol().inodeMap == old(fs.Vol()).inodeMap - {c}
      && LeadsTo(old(TreeNow(fs)), p, dirname, x, c)
      && if dirname == DOT then TreeNow(fs) == old(TreeNow(fs)) - {c}
         else Step(old(TreeNow(fs)), Remove(p, x, c), TreeNow(fs))
  {
    hide Orderly, TreeOf, Meaning, Fits, WfTree, Count, Held, Removed, Removable, OnlyEntry, LookedUp, Step;
    x, c := 0, 0;
    ghost var t, owner0 := TreeNow(fs), fs.owner;
    OrderlyIsMounted(fs);
    TreeInTable(fs, p);
    var dir := fs.GetInode(p);
    if !IsDirectory(dir) {
      return NOT_A_DIRECTORY, x, c;
    }
    var retval, childInodeNum, childInode;
    retval, childInodeNum, childInode, x := FindChild(fs, dir, dirname, p);
    if retval == NOT_FOUND { LeadsNowhere(t, p, dirname); } else { LeadsOnce(t, p, dirname, x, childInodeNum); }
    if retval != 0 {
      return retval, x, c;
    }
    retval := RmdirCheck(fs, childInode, childInodeNum);
    if retval != 0 {
      return retval, x, c;
    }
    if childInodeNum == 1 {
      return UNKNOWN_ERROR, x, c;
    }
    DirSize(fs, childInodeNum);
    LastDirZone(fs.bs);
    var childDataZone := LastZoneOf(fs, childInode, childInodeNum);
    if childDataZone != 0 {
      return UNKNOWN_ERROR, x, c;
    }
    if dirname == DOT {
      DotIsDirectory(t, p);
    } else {
      DirRemovable(t, p, dirname, x, childInodeNum);
    }
    ForgetDirectory(fs, p, dir, childInodeNum, childInode, x, dirname != DOT);
    return 0, x, childInodeNum;
  }
}
