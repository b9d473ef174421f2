/** Scanning a directory block by block: finding a name (minix3_get_inode_from_name) and emptying an entry. */
module Minix3Lookup {
  import opened Bytes
  import opened Arith
  import opened Minix3Layout
  import opened Minix3Slots
  import opened Minix3Files
  import opened Minix3Disk
  import opened Minix3Walker
  import opened Minix3Append
  import opened Minix3Read
  import opened Minix3Entries
  import opened Minix3Tree
  import opened Minix3Nodes

  const FOUND_DIRECTORY := 0
  const NOT_SEARCHABLE := 1
  const NOT_FOUND := 101
  const NOT_DIRECTORY := 102

  // ---- what the scan finds -----------------------------------------------------

  /** The first match in [lo, hi). */
  function FirstMatch(es: seq<Entry>, name: seq<byte>, lo: nat, hi: nat): (r: Option<nat>)
    ensures r.Some? ==> lo <= r.value < hi && Matches(es, name, r.value) && forall x :: lo <= x < r.value ==> !Matches(es, name, x)
    ensures r.None? ==> forall x :: lo <= x < hi ==> !Matches(es, name, x)
    decreases hi - lo
  {
    if lo >= hi then None else if Matches(es, name, lo) then Some(lo) else FirstMatch(es, name, lo + 1, hi)
  }

  /** A match ends the scan of its block only, so the first match of the last block that has one wins. */
  function LastBlockMatch(es: seq<Entry>, name: seq<byte>, perBlock: nat, k: nat): (r: Option<nat>)
    ensures r.Some? ==> Matches(es, name, r.value)
    ensures r.None? ==> forall x :: 0 <= x < Times(k, perBlock) ==> !Matches(es, name, x)
  {
    if k == 0 then None
    else
      var here := FirstMatch(es, name, Times(k - 1, perBlock), Times(k, perBlock));
      if here.Some? then here else LastBlockMatch(es, name, perBlock, k - 1)
  }

  /** In its block no entry before it has the name, and no block after it does. */
  lemma {:induction false} LastBlockIs(es: seq<Entry>, name: seq<byte>, perBlock: nat, k: nat) returns (b: nat)
    requires LastBlockMatch(es, name, perBlock, k).Some?
    ensures var x := LastBlockMatch(es, name, perBlock, k).value;
      && b < k && Times(b, perBlock) <= x < Times(b + 1, perBlock)
      && (forall y :: Times(b, perBlock) <= y < x ==> !Matches(es, name, y))
      && (forall y :: Times(b + 1, perBlock) <= y < Times(k, perBlock) ==> !Matches(es, name, y))
  {
    hide Matches;
    if FirstMatch(es, name, Times(k - 1, perBlock), Times(k, perBlock)).Some? {
      b := k - 1;
    } else {
      b := LastBlockIs(es, name, perBlock, k - 1);
    }
  }

  /** With unique names that is the one entry with the name. */
  lemma LookupIsView(es: seq<Entry>, name: seq<byte>, perBlock: nat, k: nat)
    requires UniqueNames(es) && |es| <= Times(k, perBlock)
    ensures var r := LastBlockMatch(es, name, perBlock, k);
            && (r.Some? <==> name in View(es))
            && (r.Some? ==> r.value < |es| && View(es)[name] == es[r.value].ino
                            && forall x :: 0 <= x < |es| ==> (Matches(es, name, x) <==> x == r.value))
  {
    hide UniqueNames;
    var r := LastBlockMatch(es, name, perBlock, k);
    if name in View(es) {
      var x := ViewOf(es, name);
      assert Matches(es, name, x);
    }
    if r.Some? {
      ViewAt(es, r.value);
      forall x | 0 <= x < |es| ensures Matches(es, name, x) <==> x == r.value {
        if Matches(es, name, x) { NoDouble(es, x, r.value); }
      }
    }
  }

  // ---- a directory's blocks hold its entries ---------------------------------------

  /** A block holds the entries from `lo` on, then empty ones. */
  ghost predicate BlockHolds(block: seq<byte>, es: seq<Entry>, lo: nat)
  {
    forall j :: 0 <= j < |block| / ENTRY_SIZE ==> SlotHolds(block, es, lo, j)
  }

  ghost predicate SlotHolds(block: seq<byte>, es: seq<Entry>, lo: nat, j: nat)
    requires j < |block| / ENTRY_SIZE
  {
    var e := DecodeEntry(block[ENTRY_SIZE * j..ENTRY_SIZE * j + ENTRY_SIZE]);
    if lo + j < |es| then e == es[lo + j] else e.ino == 0
  }

  lemma {:induction false} TimesScaled(k: nat, m: nat)
    ensures Times(k, ENTRY_SIZE * m) == ENTRY_SIZE * Times(k, m)
  {
    if k > 0 {
      TimesScaled(k - 1, m);
    }
  }

  lemma SlotOfBytes(content: seq<byte>, size: nat, at: nat, bs: nat, lo: nat, j: nat)
    requires size <= |content| && size % ENTRY_SIZE == 0 && ZeroTail(content, size)
    requires at == ENTRY_SIZE * lo && at + bs <= |content| && j < bs / ENTRY_SIZE
    ensures SlotHolds(content[at..at + bs], Entries(content[..size]), lo, j)
  {
    hide Entries, DecodeEntry;
    var text, x := content[..size], lo + j;
    SliceOfSlice(content, at, bs, ENTRY_SIZE * j, ENTRY_SIZE);
    if x < size / ENTRY_SIZE {
      SliceOfSlice(content, 0, size, ENTRY_SIZE * x, ENTRY_SIZE);
      EntryAt(text, x);
    } else {
      EmptySlot(content, size, ENTRY_SIZE * x);
    }
  }

  lemma EmptySlot(content: seq<byte>, size: nat, at: nat)
    requires size <= at && at + ENTRY_SIZE <= |content| && ZeroTail(content, size)
    ensures DecodeEntry(content[at..at + ENTRY_SIZE]).ino == 0
  {
  }

  /** Directory d of a consistent volume: block k holds entries k * perBlock onwards, and empty slots past the end. */
  lemma DirectoryBlock(sb: Superblock, bs: nat, v: Volume, owner: Owners, d: nat, k: nat)
    requires AllWf(v) && Consistent(sb, bs, v, owner) && WholeEntries(v)
    requires d in FilesOf(v, bs) && IsDirectory(v.inodes[d]) && k < Count(v.inodes[d].size, bs)
    ensures bs >= 64 && d in TreeOf(v, bs) && TreeOf(v, bs)[d].Directory?
    ensures var z := SlotZone(v.zones, v.inodes[d], bs / 4, Data(k));
            InZones(sb, z) && z != 0 && z in v.zones && |v.zones[z]| == bs
            && BlockHolds(v.zones[z], TreeOf(v, bs)[d].entries, Times(k, bs / ENTRY_SIZE))
  {
    hide SlotZone, Content, Times, DecodeEntry, Count, ZeroTail, BlockHolds, SlotHolds;
    var f, n := v.inodes[d], Count(v.inodes[d].size, bs);
    ConsistentFacts(sb, bs, v, owner, d);
    ReadableZone(sb, bs, v, f, n, k);
    ContentBlock(v.zones, f, bs, n, k);
    CountBounds(f.size, bs);
    TimesScaled(k, bs / ENTRY_SIZE);
    var c := Content(v.zones, f, bs / 4, n);
    var z := SlotZone(v.zones, f, bs / 4, Data(k));
    assert FilesOf(v, bs)[d] == File(f, n);
    assert ZeroTail(c, f.size);
    assert FileBytes(v.zones, f, bs) == c[..f.size];
    BlockOfBytes(c, f.size, Times(k, bs), bs, Times(k, bs / ENTRY_SIZE));
  }

  lemma BlockOfBytes(content: seq<byte>, size: nat, at: nat, bs: nat, lo: nat)
    requires size <= |content| && size % ENTRY_SIZE == 0 && ZeroTail(content, size)
    requires at == ENTRY_SIZE * lo && at + bs <= |content|
    ensures BlockHolds(content[at..at + bs], Entries(content[..size]), lo)
  {
    hide SlotHolds, Entries, ZeroTail;
    var block, es := content[at..at + bs], Entries(content[..size]);
    forall j | 0 <= j < |block| / ENTRY_SIZE ensures SlotHolds(block, es, lo, j) {
      SlotOfBytes(content, size, at, bs, lo, j);
    }
  }

  /** All entries lie in the directory's blocks. */
  lemma EntriesCovered(sb: Superblock, bs: nat, v: Volume, owner: Owners, d: nat)
    requires AllWf(v) && Consistent(sb, bs, v, owner) && WholeEntries(v)
    requires bs >= 64 && d in FilesOf(v, bs) && IsDirectory(v.inodes[d])
    ensures IsDir(TreeOf(v, bs), d)
    ensures TreeOf(v, bs)[d].nlinks == v.inodes[d].nlinks
    ensures |TreeOf(v, bs)[d].entries| * ENTRY_SIZE == v.inodes[d].size
    ensures |TreeOf(v, bs)[d].entries| <= Times(Count(v.inodes[d].size, bs), bs / ENTRY_SIZE)
  {
    hide Count, Consistent, Sound, FileBytes, DecodeEntry, Times;
    var f, n := v.inodes[d], Count(v.inodes[d].size, bs);
    ConsistentFacts(sb, bs, v, owner, d);
    FileLength(sb, bs, v, f, n);
    CountBounds(f.size, bs);
    TimesScaled(n, bs / ENTRY_SIZE);
  }

  lemma DirectoryNode(bs: nat, v: Volume, d: nat)
    requires AllWf(v) && bs >= 4 && d in TreeOf(v, bs)
    ensures d in v.inodes && d in FilesOf(v, bs) && v.inodes[d].Wf() && (IsDir(TreeOf(v, bs), d) <==> IsDirectory(v.inodes[d]))
  {
  }

  // ---- minix3_get_inode_from_name ----------------------------------------------------

  /** Every live entry has a terminated name and a number in the inode table. */
  predicate Readable(sb: Superblock, es: seq<Entry>)
  {
    forall x :: 0 <= x < |es| && es[x].ino != 0 ==> InTable(sb, es[x].ino) && IsName(es[x].name)
  }

  /** dirs[j].inode_num */
  function InoAt(block: seq<byte>, j: nat): u32
    requires j < |block| / ENTRY_SIZE
  {
    U32(block, ENTRY_SIZE * j)
  }

  lemma SlotIno(block: seq<byte>, es: seq<Entry>, lo: nat, j: nat)
    requires BlockHolds(block, es, lo) && j < |block| / ENTRY_SIZE
    ensures lo + j < |es| ==> InoAt(block, j) == es[lo + j].ino
    ensures lo + j >= |es| ==> InoAt(block, j) == 0
    ensures lo + j < |es| ==> CStr(block[ENTRY_SIZE * j + 4..ENTRY_SIZE * j + ENTRY_SIZE]) == es[lo + j].name
  {
    assert SlotHolds(block, es, lo, j);
    var b := block[ENTRY_SIZE * j..ENTRY_SIZE * j + ENTRY_SIZE];
    assert b[4..] == block[ENTRY_SIZE * j + 4..ENTRY_SIZE * j + ENTRY_SIZE];
  }

  lemma SameName(raw: seq<byte>, name: seq<byte>)
    requires |raw| == NAME_LEN && |CStr(raw)| < NAME_LEN && IsString(name)
    ensures 0 in raw && 0 in name + [0] && (Mstrcmp(raw, name + [0]) == 0 <==> CStr(raw) == name)
  {
    hide CStr, Mstrcmp;
    assert (name + [0])[|name|] == 0;
    CStrOf(name, []);
    assert name + [0] + [] == name + [0];
    SameStr(raw, name + [0]);
  }

  /** The scan of one block. */
  method ScanBlock(fs: FileStore, zone: array<byte>, name: seq<byte>, ghost es: seq<Entry>, ghost lo: nat)
    returns (found: bool, inodeNum: nat, fill: Inode)
    requires fs.Mounted() && zone.Length == fs.bs && BlockHolds(zone[..], es, lo) && Readable(fs.sb, es) && IsString(name)
    ensures fs.Mounted()
    ensures var m := FirstMatch(es, name, lo, lo + fs.bs / ENTRY_SIZE);
            && found == m.Some?
            && (found ==> inodeNum == es[m.value].ino && inodeNum in fs.Vol().inodes && fill == fs.Vol().inodes[inodeNum])
  {
    hide Fits, Meaning, BlockHolds, CStr, Mstrcmp, U32;
    var dirsPerBlock := fs.bs / ENTRY_SIZE;
    found, inodeNum, fill := false, *, *;
    var j := 0;
    while j < dirsPerBlock
      invariant 0 <= j <= dirsPerBlock && !found
      invariant FirstMatch(es, name, lo, lo + dirsPerBlock) == FirstMatch(es, name, lo + j, lo + dirsPerBlock)
    {
      SlotIno(zone[..], es, lo, j);
      if InoAt(zone[..], j) == 0 {
        j := j + 1;
        continue;
      } else {
        var entryName := zone[..][ENTRY_SIZE * j + 4..ENTRY_SIZE * j + ENTRY_SIZE];
        SameName(entryName, name);
        if Mstrcmp(entryName, name + [0]) == 0 {
          fill := fs.GetInode(InoAt(zone[..], j));
          inodeNum := InoAt(zone[..], j);
          found := true;
          break;
        }
      }
      j := j + 1;
    }
  }

  /** minix3_get_file_max_zones */
  method GetFileMaxZones(bs: nat) returns (maxZones: nat)
    ensures maxZones >= MaxZones(bs / 4)
  {
    var ppz := bs / 4;
    var square := Product(ppz, ppz);
    var cube := Product(square, ppz);
    maxZones := IDZONE + ppz + square + cube;
  }

  /** Something remains of a file exactly below its last zone. */
  lemma StopsAtEnd(sb: Superblock, bs: nat, v: Volume, f: Inode, n: nat, i: nat)
    requires Sound(sb, bs, v, f, n) && n == Count(f.size, bs)
    ensures Remaining(f.size, bs, i) == 0 <==> i >= n
    ensures n <= MaxZones(bs / 4)
  {
    if i < n { LastZoneAt(f.size, bs, i); } else { RemainingPastEnd(f.size, bs, i); }
  }

  /** minix3_get_inode_from_name, on inode `dir` of directory d. */
  method GetInodeFromName(fs: FileStore, dir: Inode, name: seq<byte>, ghost d: nat)
    returns (code: int, inodeNum: nat, fill: Inode)
    requires Orderly(fs) && IsString(name)
    requires d in TreeNow(fs) && d in fs.Vol().inodes && dir == fs.Vol().inodes[d]
    requires IsDir(TreeNow(fs), d) ==> Readable(fs.sb, TreeNow(fs)[d].entries)
    modifies fs`zoneCursor
    ensures Orderly(fs) && fs.zoneCursor == old(fs.zoneCursor)
    ensures !IsDir(TreeNow(fs), d) <==> code == 1
    ensures IsDir(TreeNow(fs), d) ==>
      var es := TreeNow(fs)[d].entries;
      var m := LastBlockMatch(es, name, fs.bs / ENTRY_SIZE, Count(dir.size, fs.bs));
      && (m.None? <==> code == NOT_FOUND)
      && (m.Some? ==> inodeNum == es[m.value].ino && inodeNum in fs.Vol().inodes && fill == fs.Vol().inodes[inodeNum]
                      && code == if IsDirectory(fill) then FOUND_DIRECTORY else NOT_DIRECTORY)
  {
    hide Fits, Meaning, Consistent, TreeOf, Count, Times, BlockHolds, Sound, FilesOf, LastBlockMatch, FirstMatch,
      Readable, IsString, WholeEntries, Sized, SlotZone, Remaining, MaxZones, FileStore.Mounted;
    DirectoryNode(fs.bs, fs.Vol(), d);
    inodeNum, fill := *, *;
    if !IsDirectory(dir) {
      return NOT_SEARCHABLE, inodeNum, fill;
    }
    ghost var v, n := fs.Vol(), Count(dir.size, fs.bs);
    ghost var es, perBlock := TreeOf(v, fs.bs)[d].entries, fs.bs / ENTRY_SIZE;
    ConsistentFacts(fs.sb, fs.bs, v, fs.owner, d);
    var found := false;
    var zone := new byte[fs.bs](_ => 0);
    var maxZones := GetFileMaxZones(fs.bs);
    var i: int := 0;
    StopsAtEnd(fs.sb, fs.bs, v, dir, n, 0);
    NextBlockMatch(es, name, perBlock, 0);
    while i < maxZones
      invariant fs.Mounted() && 0 <= i <= n && fresh(zone) && zone.Length == fs.bs && zone != fs.dev.data
      invariant fs.dev.Image() == old(fs.dev.Image()) && fs.zoneCursor == old(fs.zoneCursor)
      invariant found == LastBlockMatch(es, name, perBlock, i).Some?
      invariant found ==>
        inodeNum == es[LastBlockMatch(es, name, perBlock, i).value].ino && inodeNum in v.inodes && fill == v.inodes[inodeNum]
    {
      var zoneNum, remaining := Gzbars(fs, dir, i, n);
      StopsAtEnd(fs.sb, fs.bs, v, dir, n, i);
      if remaining == 0 {
        break;
      }
      DirectoryBlock(fs.sb, fs.bs, v, fs.owner, d, i);
      if zoneNum == 0 {
        i := i + 1;
        continue;
      }
      fs.ReadInZone(zone, 0, zoneNum, 0, fs.bs);
      assert zone[..] == v.zones[zoneNum];
      var hit, ino, inode := ScanBlock(fs, zone, name, es, Times(i, perBlock));
      NextBlockMatch(es, name, perBlock, i);
      if hit {
        found, inodeNum, fill := true, ino, inode;
      }
      i := i + 1;
    }
    if !found {
      return NOT_FOUND, inodeNum, fill;
    }
    if !IsDirectory(fill) {
      return NOT_DIRECTORY, inodeNum, fill;
    }
    return FOUND_DIRECTORY, inodeNum, fill;
  }

  lemma NextBlockMatch(es: seq<Entry>, name: seq<byte>, perBlock: nat, k: nat)
    ensures LastBlockMatch(es, name, perBlock, 0).None?
    ensures var here := FirstMatch(es, name, Times(k, perBlock), Times(k, perBlock) + perBlock);
            LastBlockMatch(es, name, perBlock, k + 1) == if here.Some? then here else LastBlockMatch(es, name, perBlock, k)
  {
  }

  // ---- emptying an entry ---------------------------------------------------------------

  /** The bytes of entry j of a block, with inode number 0. */
  function Emptied(block: seq<byte>, j: nat): (r: seq<byte>)
    requires j < |block| / ENTRY_SIZE
    ensures |r| == ENTRY_SIZE
  {
    Splice(block[ENTRY_SIZE * j..ENTRY_SIZE * j + ENTRY_SIZE], 0, Put32(0))
  }

  lemma EmptiedEntry(block: seq<byte>, es: seq<Entry>, lo: nat, j: nat)
    requires BlockHolds(block, es, lo) && j < |block| / ENTRY_SIZE && lo + j < |es|
    ensures |Emptied(block, j)| == ENTRY_SIZE && DecodeEntry(Emptied(block, j)) == Entry(0, es[lo + j].name)
  {
    assert SlotHolds(block, es, lo, j);
    RenumberEntry(block[ENTRY_SIZE * j..ENTRY_SIZE * j + ENTRY_SIZE], 0);
  }

  /** Directory d with entry x emptied, and nothing else changed. */
  ghost predicate Dropped(bs: nat, v0: Volume, d: nat, x: nat, v1: Volume)
  {
    && bs >= 4 && AllWf(v0) && IsDir(TreeOf(v0, bs), d) && x < |TreeOf(v0, bs)[d].entries| &&
    var node := TreeOf(v0, bs)[d];
    && AllWf(v1) && v1 == v0.(zones := v1.zones)
    && TreeOf(v1, bs) == TreeOf(v0, bs)[d := Directory(node.nlinks, node.entries[x := Entry(0, node.entries[x].name)])]
  }

  lemma DroppedInBlock(sb: Superblock, bs: nat, v0: Volume, owner: Owners, d: nat, k: nat, j: nat, v1: Volume)
    requires bs >= 64 && AllWf(v0) && Consistent(sb, bs, v0, owner) && WholeEntries(v0)
    requires d in FilesOf(v0, bs) && IsDirectory(v0.inodes[d]) && k < Count(v0.inodes[d].size, bs) && j < bs / ENTRY_SIZE
    requires d in TreeOf(v0, bs) && TreeOf(v0, bs)[d].Directory?
    requires Times(k, bs / ENTRY_SIZE) + j < |TreeOf(v0, bs)[d].entries|
    requires var z := SlotZone(v0.zones, v0.inodes[d], bs / 4, Data(k));
      z in v0.zones && |v0.zones[z]| == bs
      && v1 == v0.(zones := v0.zones[z := Splice(v0.zones[z], ENTRY_SIZE * j, Emptied(v0.zones[z], j))])
    ensures Consistent(sb, bs, v1, owner) && WholeEntries(v1)
    ensures Dropped(bs, v0, d, Times(k, bs / ENTRY_SIZE) + j, v1)
  {
    hide Content, Consistent, SlotZone, BlockHolds, Emptied, DecodeEntry, Times, FileBytes, Splice, Count;
    var f, x := v0.inodes[d], Times(k, bs / ENTRY_SIZE) + j;
    var z := SlotZone(v0.zones, f, bs / 4, Data(k));
    DirectoryBlock(sb, bs, v0, owner, d, k);
    EmptiedEntry(v0.zones[z], TreeOf(v0, bs)[d].entries, Times(k, bs / ENTRY_SIZE), j);
    TimesScaled(k, bs / ENTRY_SIZE);
    ConsistentFacts(sb, bs, v0, owner, d);
    EntriesCovered(sb, bs, v0, owner, d);
    assert ENTRY_SIZE * (bs / ENTRY_SIZE) == bs;
    Overwrite(sb, bs, v0, owner, d, k, ENTRY_SIZE * j, Emptied(v0.zones[z], j), v1);
    EntriesSplice(FileBytes(v0.zones, f, bs), x, Emptied(v0.zones[z], j));
  }

  /** The loop over one block: the first entry with the number loses it, on the device too. */
  method DropInBlock(fs: FileStore, zone: array<byte>, zoneNum: nat, child: u32, ghost es: seq<Entry>, ghost lo: nat)
    returns (hit: bool, j: nat)
    requires fs.Mounted() && fs.bs >= 64 && zone.Length == fs.bs && zone != fs.dev.data
    requires InZones(fs.sb, zoneNum) && zone[..] == fs.Vol().zones[zoneNum] && BlockHolds(zone[..], es, lo) && child != 0
    modifies zone, fs.dev.data
    ensures fs.Mounted()
    ensures !hit ==> fs.dev.Image() == old(fs.dev.Image())
    ensures !hit ==> forall x :: lo <= x < lo + fs.bs / ENTRY_SIZE && x < |es| ==> es[x].ino != child
    ensures hit ==> j < fs.bs / ENTRY_SIZE && lo + j < |es| && es[lo + j].ino == child
    ensures hit ==> fs.Vol() == old(fs.Vol()).(zones := old(fs.Vol()).zones[
              zoneNum := Splice(old(fs.Vol()).zones[zoneNum], ENTRY_SIZE * j, Emptied(old(fs.Vol()).zones[zoneNum], j))])
  {
    hide Fits, Meaning, BlockHolds, InoAt, Put32, Splice, Emptied, FileStore.Mounted;
    var dirsPerBlock := fs.bs / ENTRY_SIZE;
    ghost var block := zone[..];
    hit, j := false, 0;
    while j < dirsPerBlock
      invariant 0 <= j <= dirsPerBlock && !hit && zone[..] == block
      invariant fs.Mounted() && fs.dev.Image() == old(fs.dev.Image())
      invariant forall x :: lo <= x < lo + j && x < |es| ==> es[x].ino != child
    {
      SlotIno(block, es, lo, j);
      if InoAt(zone[..], j) == child {
        hit := true;
        PutIno(zone, ENTRY_SIZE * j, 0);
        EmptiedInPlace(block, j);
        assert zone[ENTRY_SIZE * j..ENTRY_SIZE * j + ENTRY_SIZE] == zone[..][ENTRY_SIZE * j..ENTRY_SIZE * j + ENTRY_SIZE];
        fs.WriteInZone(zone, ENTRY_SIZE * j, zoneNum, ENTRY_SIZE * j, ENTRY_SIZE);
        break;
      }
      j := j + 1;
    }
  }

  lemma EmptiedInPlace(block: seq<byte>, j: nat)
    requires j < |block| / ENTRY_SIZE
    ensures Splice(block, ENTRY_SIZE * j, Put32(0))[ENTRY_SIZE * j..ENTRY_SIZE * j + ENTRY_SIZE] == Emptied(block, j)
  {
  }

  /** How far the loop over the blocks has got: entry x is in a block still to come, or it has been emptied. */
  ghost predicate Dropping(sb: Superblock, bs: nat, v0: Volume, owner: Owners, d: nat, x: nat, k: nat, v: Volume)
    requires bs >= 64 && AllWf(v0) && IsDir(TreeOf(v0, bs), d) && x < |TreeOf(v0, bs)[d].entries|
  {
    && Consistent(sb, bs, v, owner) && WholeEntries(v)
    && if x < Times(k, bs / ENTRY_SIZE) then Dropped(bs, v0, d, x, v) else v == v0
  }

  /** Only entry x of directory d has the number. */
  predicate OnlyEntry(es: seq<Entry>, x: nat, child: nat)
  {
    x < |es| && es[x].ino == child && forall y :: 0 <= y < |es| && y != x ==> es[y].ino != child
  }

  /** One more block. */
  lemma DroppingNext(sb: Superblock, bs: nat, v0: Volume, owner: Owners, d: nat, x: nat, child: u32, k: nat,
                     v: Volume, hit: bool, j: nat, v': Volume)
    requires bs >= 64 && AllWf(v0) && IsDir(TreeOf(v0, bs), d) && OnlyEntry(TreeOf(v0, bs)[d].entries, x, child) && child != 0
    requires Dropping(sb, bs, v0, owner, d, x, k, v) && AllWf(v) && d in FilesOf(v, bs) && IsDirectory(v.inodes[d])
    requires IsDir(TreeOf(v, bs), d) && k < Count(v.inodes[d].size, bs)
    requires var z, lo, es := SlotZone(v.zones, v.inodes[d], bs / 4, Data(k)), Times(k, bs / ENTRY_SIZE), TreeOf(v, bs)[d].entries;
      && z in v.zones && |v.zones[z]| == bs
      && (!hit ==> v' == v && forall y :: lo <= y < lo + bs / ENTRY_SIZE && y < |es| ==> es[y].ino != child)
      && (hit ==> j < bs / ENTRY_SIZE && lo + j < |es| && es[lo + j].ino == child
                  && v' == v.(zones := v.zones[z := Splice(v.zones[z], ENTRY_SIZE * j, Emptied(v.zones[z], j))]))
    ensures Dropping(sb, bs, v0, owner, d, x, k + 1, v')
  {
    hide Consistent, SlotZone, Count, TreeOf, Splice, Emptied;
    var lo := Times(k, bs / ENTRY_SIZE);
    assert Times(k + 1, bs / ENTRY_SIZE) == lo + bs / ENTRY_SIZE;
    if hit {
      assert x >= lo;
      assert lo + j == x;
      DroppedInBlock(sb, bs, v, owner, d, k, j, v');
    }
  }

  /** A directory whose inode and zones are already free: no file sees what is written to its blocks. */
  ghost predicate Loose(sb: Superblock, bs: nat, v0: Volume, owner: Owners, dir: Inode, v: Volume)
    requires bs >= 64 && AllWf(v0)
  {
    && AllWf(v) && Consistent(sb, bs, v, owner) && WholeEntries(v)
    && v == v0.(zones := v.zones) && TreeOf(v, bs) == TreeOf(v0, bs)
    && Sound(sb, bs, v, dir, Count(dir.size, bs)) && Count(dir.size, bs) <= IDZONE
    && forall k :: 0 <= k < Count(dir.size, bs) ==> dir.zones[k] !in owner
  }

  lemma BlockOfItself(block: seq<byte>)
    ensures BlockHolds(block, Entries(block), 0)
  {
  }

  lemma LooseBlock(sb: Superblock, bs: nat, v0: Volume, owner: Owners, dir: Inode, v: Volume, k: nat)
    requires bs >= 64 && AllWf(v0) && Loose(sb, bs, v0, owner, dir, v) && k < Count(dir.size, bs)
    ensures dir.Wf() && k < NZONES && SlotZone(v.zones, dir, bs / 4, Data(k)) == dir.zones[k] && dir.zones[k] != 0
    ensures InZones(sb, dir.zones[k]) && dir.zones[k] in v.zones && |v.zones[dir.zones[k]]| == bs
    ensures dir.zones[k] !in owner
  {
    hide Consistent, TreeOf, Count;
    ReadableZone(sb, bs, v, dir, Count(dir.size, bs), k);
  }

  lemma LooseNext(sb: Superblock, bs: nat, v0: Volume, owner: Owners, dir: Inode, v: Volume, z: nat, block: seq<byte>, v': Volume)
    requires bs >= 64 && AllWf(v0) && Loose(sb, bs, v0, owner, dir, v) && z in v.zones && z !in owner && |block| == bs
    requires v' == v.(zones := v.zones[z := block])
    ensures Loose(sb, bs, v0, owner, dir, v')
  {
    hide Consistent, TreeOf, Count, Sound, Sized, WholeEntries;
    WriteUnowned(sb, bs, v, owner, z, block, v');
    SoundSized(sb, bs, v, dir, Count(dir.size, bs));
    StillSized(v.zones, bs, z, block);
    DirectSound(sb, bs, v, v', dir, Count(dir.size, bs));
  }

  lemma SoundSized(sb: Superblock, bs: nat, v: Volume, f: Inode, n: nat)
    requires Sound(sb, bs, v, f, n)
    ensures Sized(v.zones, bs)
  {
  }

  /** How far the loop has got, for a directory that is kept and for one that is gone. */
  ghost predicate Fate(sb: Superblock, bs: nat, v0: Volume, owner: Owners, dir: Inode, d: nat, x: nat, kept: bool, k: nat, v: Volume)
    requires bs >= 64 && AllWf(v0)
  {
    if kept then
      && IsDir(TreeOf(v0, bs), d) && x < |TreeOf(v0, bs)[d].entries| && d in v0.inodes && v0.inodes[d] == dir
      && Dropping(sb, bs, v0, owner, d, x, k, v)
    else Loose(sb, bs, v0, owner, dir, v)
  }

  lemma FateFacts(sb: Superblock, bs: nat, v0: Volume, owner: Owners, dir: Inode, d: nat, x: nat, kept: bool, k: nat, v: Volume)
    requires bs >= 64 && AllWf(v0) && Fate(sb, bs, v0, owner, dir, d, x, kept, k, v)
    ensures AllWf(v) && Sound(sb, bs, v, dir, Count(dir.size, bs)) && dir.Wf()
    ensures k < Count(dir.size, bs) ==>
      var z := SlotZone(v.zones, dir, bs / 4, Data(k));
      && InZones(sb, z) && z != 0 && z in v.zones && |v.zones[z]| == bs
      && BlockHolds(v.zones[z], FateEntries(bs, v, dir, d, kept, k), FateFirst(bs, kept, k))
  {
    hide Consistent, TreeOf, Count, Sound, SlotZone, BlockHolds, Dropped, WholeEntries;
    if kept {
      DroppingFacts(sb, bs, v0, owner, d, x, k, v);
      ConsistentFacts(sb, bs, v, owner, d);
      if k < Count(dir.size, bs) { DirectoryBlock(sb, bs, v, owner, d, k); }
    } else {
      SoundWf(sb, bs, v, dir, Count(dir.size, bs));
      if k < Count(dir.size, bs) {
        LooseBlock(sb, bs, v0, owner, dir, v, k);
        BlockOfItself(v.zones[dir.zones[k]]);
      }
    }
  }

  lemma SoundWf(sb: Superblock, bs: nat, v: Volume, f: Inode, n: nat)
    requires Sound(sb, bs, v, f, n)
    ensures f.Wf()
  {
  }

  /** What block k holds, by its place in the directory or on its own. */
  ghost function FateEntries(bs: nat, v: Volume, dir: Inode, d: nat, kept: bool, k: nat): seq<Entry>
    requires bs >= 64 && AllWf(v) && dir.Wf()
  {
    if kept && IsDir(TreeOf(v, bs), d) then TreeOf(v, bs)[d].entries
    else Entries(ZoneBytes(v.zones, SlotZone(v.zones, dir, bs / 4, Data(k))))
  }

  ghost function FateFirst(bs: nat, kept: bool, k: nat): nat
  {
    if kept then Times(k, bs / ENTRY_SIZE) else 0
  }

  lemma FateNext(sb: Superblock, bs: nat, v0: Volume, owner: Owners, dir: Inode, d: nat, x: nat, child: u32, kept: bool, k: nat,
                 v: Volume, hit: bool, j: nat, v': Volume)
    requires bs >= 64 && AllWf(v0) && Fate(sb, bs, v0, owner, dir, d, x, kept, k, v) && AllWf(v) && dir.Wf()
    requires k < Count(dir.size, bs) && child != 0
    requires kept ==> IsDir(TreeOf(v0, bs), d) && OnlyEntry(TreeOf(v0, bs)[d].entries, x, child)
    requires var z, lo, es := SlotZone(v.zones, dir, bs / 4, Data(k)), FateFirst(bs, kept, k), FateEntries(bs, v, dir, d, kept, k);
      && z in v.zones && |v.zones[z]| == bs
      && (!hit ==> v' == v && forall y :: lo <= y < lo + bs / ENTRY_SIZE && y < |es| ==> es[y].ino != child)
      && (hit ==> j < bs / ENTRY_SIZE && lo + j < |es| && es[lo + j].ino == child
                  && v' == v.(zones := v.zones[z := Splice(v.zones[z], ENTRY_SIZE * j, Emptied(v.zones[z], j))]))
    ensures Fate(sb, bs, v0, owner, dir, d, x, kept, k + 1, v')
  {
    hide Consistent, TreeOf, Count, SlotZone, Splice, Emptied, Dropping, Loose, OnlyEntry;
    if kept {
      OnlyEntryFacts(TreeOf(v0, bs)[d].entries, x, child);
      DroppingFacts(sb, bs, v0, owner, d, x, k, v);
      DroppingNext(sb, bs, v0, owner, d, x, child, k, v, hit, j, v');
    } else {
      LooseBlock(sb, bs, v0, owner, dir, v, k);
      if hit {
        var z := SlotZone(v.zones, dir, bs / 4, Data(k));
        LooseNext(sb, bs, v0, owner, dir, v, z, Splice(v.zones[z], ENTRY_SIZE * j, Emptied(v.zones[z], j)), v');
      }
    }
  }

  /** What the loop starts from: one entry to empty in a directory that is kept, or a directory that is gone. */
  ghost predicate CanDrop(fs: FileStore, dir: Inode, child: nat, d: nat, x: nat, kept: bool)
    requires Orderly(fs)
    reads fs, fs.dev, fs.dev.data
  {
    if kept then
      && IsDir(TreeNow(fs), d) && d in fs.Vol().inodes && dir == fs.Vol().inodes[d]
      && OnlyEntry(TreeNow(fs)[d].entries, x, child)
    else Loose(fs.sb, fs.bs, fs.Vol(), fs.owner, dir, fs.Vol())
  }

  /** The loop over a directory's blocks in rm and rmdir; rmdir can run it on a directory it has just freed. */
  method DropEntry(fs: FileStore, dir: Inode, child: u32, ghost d: nat, ghost x: nat, ghost kept: bool)
    requires Orderly(fs) && CanDrop(fs, dir, child, d, x, kept) && child != 0
    modifies fs.dev.data, fs`zoneCursor
    ensures Orderly(fs) && fs.zoneCursor == old(fs.zoneCursor)
    ensures kept ==> Dropped(fs.bs, old(fs.Vol()), d, x, fs.Vol())
    ensures !kept ==> TreeNow(fs) == old(TreeNow(fs)) && fs.Vol() == old(fs.Vol()).(zones := fs.Vol().zones)
  {
    hide Fits, Meaning, Consistent, TreeOf, Count, Times, BlockHolds, Sound, FilesOf, WholeEntries, Sized, SlotZone,
      Remaining, MaxZones, FileStore.Mounted, Fate, FateEntries, FateFirst, Dropped, OnlyEntry, Loose;
    ghost var v0, n := fs.Vol(), Count(dir.size, fs.bs);
    FateStart(fs, dir, child, d, x, kept);
    FateFacts(fs.sb, fs.bs, v0, fs.owner, dir, d, x, kept, 0, v0);
    var zone := new byte[fs.bs](_ => 0);
    var maxZones := GetFileMaxZones(fs.bs);
    var i: int := 0;
    StopsAtEnd(fs.sb, fs.bs, v0, dir, n, 0);
    while i < maxZones
      invariant fs.Mounted() && 0 <= i <= n && fresh(zone) && zone.Length == fs.bs && zone != fs.dev.data
      invariant fs.zoneCursor == old(fs.zoneCursor)
      invariant Fate(fs.sb, fs.bs, v0, fs.owner, dir, d, x, kept, i, fs.Vol())
    {
      ghost var v := fs.Vol();
      FateFacts(fs.sb, fs.bs, v0, fs.owner, dir, d, x, kept, i, v);
      var zoneNum, remaining := Gzbars(fs, dir, i, n);
      StopsAtEnd(fs.sb, fs.bs, v, dir, n, i);
      if remaining == 0 {
        break;
      }
      if zoneNum == 0 {
        i := i + 1;
        continue;
      }
      fs.ReadInZone(zone, 0, zoneNum, 0, fs.bs);
      assert zone[..] == v.zones[zoneNum];
      ghost var es, lo := FateEntries(fs.bs, v, dir, d, kept, i), FateFirst(fs.bs, kept, i);
      var hit, j := DropInBlock(fs, zone, zoneNum, child, es, lo);
      FateNext(fs.sb, fs.bs, v0, fs.owner, dir, d, x, child, kept, i, v, hit, j, fs.Vol());
      i := i + 1;
    }
    FateEnd(fs.sb, fs.bs, v0, fs.owner, dir, d, x, kept, fs.Vol());
  }

  lemma FateStart(fs: FileStore, dir: Inode, child: nat, d: nat, x: nat, kept: bool)
    requires Orderly(fs) && CanDrop(fs, dir, child, d, x, kept)
    ensures Fate(fs.sb, fs.bs, fs.Vol(), fs.owner, dir, d, x, kept, 0, fs.Vol())
    ensures kept ==> IsDir(TreeNow(fs), d) && OnlyEntry(TreeNow(fs)[d].entries, x, child)
  {
    hide Fits, Meaning, Consistent, TreeOf, Sound, WholeEntries, FileStore.Mounted, Loose;
    if kept { DroppingStart(fs.sb, fs.bs, fs.Vol(), fs.owner, d, x); }
  }

  lemma FateEnd(sb: Superblock, bs: nat, v0: Volume, owner: Owners, dir: Inode, d: nat, x: nat, kept: bool, v: Volume)
    requires bs >= 64 && AllWf(v0) && Fate(sb, bs, v0, owner, dir, d, x, kept, Count(dir.size, bs), v)
    requires Consistent(sb, bs, v0, owner) && WholeEntries(v0)
    ensures AllWf(v) && Consistent(sb, bs, v, owner) && WholeEntries(v)
    ensures kept ==> Dropped(bs, v0, d, x, v)
    ensures !kept ==> TreeOf(v, bs) == TreeOf(v0, bs) && v == v0.(zones := v.zones)
  {
    hide Consistent, TreeOf, Count, Sound, Dropping, Dropped;
    if kept {
      DirectoryNode(bs, v0, d);
      EntriesCovered(sb, bs, v0, owner, d);
      DroppingEnd(sb, bs, v0, owner, d, x, Count(dir.size, bs), v);
      DroppedWf(bs, v0, d, x, v);
    }
  }

  lemma DroppedWf(bs: nat, v0: Volume, d: nat, x: nat, v: Volume)
    requires bs >= 64 && AllWf(v0) && IsDir(TreeOf(v0, bs), d) && x < |TreeOf(v0, bs)[d].entries| && Dropped(bs, v0, d, x, v)
    ensures AllWf(v)
  {
  }

  lemma OnlyEntryFacts(es: seq<Entry>, x: nat, child: nat)
    requires OnlyEntry(es, x, child)
    ensures x < |es| && es[x].ino == child
  {
  }

  lemma DroppingStart(sb: Superblock, bs: nat, v: Volume, owner: Owners, d: nat, x: nat)
    requires bs >= 64 && AllWf(v) && IsDir(TreeOf(v, bs), d) && x < |TreeOf(v, bs)[d].entries|
    requires Consistent(sb, bs, v, owner) && WholeEntries(v)
    ensures Dropping(sb, bs, v, owner, d, x, 0, v)
  {
  }

  lemma DroppingFacts(sb: Superblock, bs: nat, v0: Volume, owner: Owners, d: nat, x: nat, k: nat, v: Volume)
    requires bs >= 64 && AllWf(v0) && IsDir(TreeOf(v0, bs), d) && x < |TreeOf(v0, bs)[d].entries|
    requires Dropping(sb, bs, v0, owner, d, x, k, v)
    ensures Consistent(sb, bs, v, owner) && WholeEntries(v) && AllWf(v)
    ensures v.inodes == v0.inodes && d in FilesOf(v, bs) && IsDirectory(v.inodes[d]) && IsDir(TreeOf(v, bs), d)
  {
    hide NodeOf, Consistent;
    DirectoryNode(bs, v0, d);
  }

  lemma DroppingEnd(sb: Superblock, bs: nat, v0: Volume, owner: Owners, d: nat, x: nat, n: nat, v: Volume)
    requires bs >= 64 && AllWf(v0) && IsDir(TreeOf(v0, bs), d) && x < |TreeOf(v0, bs)[d].entries|
    requires Dropping(sb, bs, v0, owner, d, x, n, v) && |TreeOf(v0, bs)[d].entries| <= Times(n, bs / ENTRY_SIZE)
    ensures Dropped(bs, v0, d, x, v) && Consistent(sb, bs, v, owner) && WholeEntries(v)
  {
  }
}
