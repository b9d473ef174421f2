/**
 * The tree a volume holds, and how each kind of change to the volume changes the tree: a fresh inode, a new link
 * count, appended bytes, a file given up, one directory entry overwritten.
 */
module Minix3Nodes {
  import opened Bytes
  import opened Arith
  import opened Minix3Layout
  import opened Minix3Slots
  import opened Minix3Files
  import opened Minix3Disk
  import opened Minix3Walker
  import opened Minix3Append
  import opened Minix3Read
  import opened Minix3Clear
  import opened Minix3Entries
  import opened Minix3Tree

  const MODE_REGULAR: nat := 0x8000
  const MODE_DIRECTORY: nat := 0x4000
  const MODE_777: nat := 0x1ff

  /** (mode & MX3_MODE_MASK) == MX3_MODE_DIRECTORY */
  predicate IsDirectory(f: Inode)
  {
    f.mode / 0x1000 == MODE_DIRECTORY / 0x1000
  }

  ghost function NodeOf(zs: Zones, f: Inode, bs: nat): Node
    requires f.Wf() && bs >= 4
  {
    var text := FileBytes(zs, f, bs);
    if IsDirectory(f) then Directory(f.nlinks, Entries(text)) else Plain(f.nlinks, text)
  }

  ghost predicate AllWf(v: Volume)
  {
    forall i :: i in v.inodes ==> v.inodes[i].Wf()
  }

  /** The occupied inodes, as a tree of nodes. */
  ghost function TreeOf(v: Volume, bs: nat): Tree
    requires AllWf(v) && bs >= 4
  {
    map i | i in v.inodes && i in v.inodeMap :: NodeOf(v.zones, v.inodes[i], bs)
  }

  /** Directories hold whole entries. */
  ghost predicate WholeEntries(v: Volume)
  {
    forall i :: i in v.inodes && i in v.inodeMap && IsDirectory(v.inodes[i]) ==> v.inodes[i].size % ENTRY_SIZE == 0
  }

  /** What every operation relies on and keeps, the shape of the directory tree aside. */
  ghost predicate Orderly(fs: FileStore)
    reads fs, fs.dev, fs.dev.data
  {
    fs.Mounted() && fs.bs >= 64 && Consistent(fs.sb, fs.bs, fs.Vol(), fs.owner) && WholeEntries(fs.Vol())
  }

  /** The tree on the device. */
  ghost function TreeNow(fs: FileStore): Tree
    requires Orderly(fs)
    reads fs, fs.dev, fs.dev.data
  {
    TreeOf(fs.Vol(), fs.bs)
  }

  /** A marked inode is a node: a directory when the top four bits of its mode are 4, and a file of bytes otherwise. */
  lemma NodeIs(v: Volume, bs: nat, i: nat)
    requires AllWf(v) && bs >= 4
    ensures i in TreeOf(v, bs) <==> i in v.inodes && i in v.inodeMap
    ensures i in TreeOf(v, bs) ==>
      var f, node := v.inodes[i], TreeOf(v, bs)[i];
      && node.nlinks == f.nlinks
      && (node.Directory? <==> f.mode / 0x1000 == 4)
      && (node.Plain? ==> node.bytes == FileBytes(v.zones, f, bs))
      && (node.Directory? ==> node.entries == Entries(FileBytes(v.zones, f, bs)))
  {
  }

  // ---- a fresh inode -----------------------------------------------------------

  predicate Blank(f: Inode)
  {
    f.Wf() && f.size == 0 && forall k :: 0 <= k < NZONES ==> f.zones[k] == 0
  }

  lemma BlankIsDense(zs: Zones, f: Inode, ppz: nat)
    requires ppz > 0 && Blank(f) && 0 !in zs
    ensures Dense(zs, f, ppz, 0)
  {
    assert f.zones[IDZONE] == 0 && f.zones[IIDZONE] == 0;
  }

  lemma NewFileOwned(zs: Zones, ppz: nat, files: Files, owner: Owners, c: nat, f: Inode)
    requires ppz > 0 && Owned(zs, ppz, files, owner) && c !in files && Blank(f) && 0 !in zs
    ensures Owned(zs, ppz, files[c := File(f, 0)], owner)
  {
    var files' := files[c := File(f, 0)];
    BlankIsDense(zs, f, ppz);
    forall i: nat, s: Slot, z: nat ensures Holds(zs, ppz, files', i, s, z) <==> Holds(zs, ppz, files, i, s, z) { }
  }

  lemma NewInode(sb: Superblock, bs: nat, v0: Volume, owner: Owners, c: nat, f: Inode, v1: Volume)
    requires AllWf(v0) && Consistent(sb, bs, v0, owner) && c in v0.inodes && c !in v0.inodeMap && Blank(f)
    requires v1 == v0.(inodeMap := v0.inodeMap + {c}, inodes := v0.inodes[c := f])
    ensures AllWf(v1) && Consistent(sb, bs, v1, owner) && bs >= 64
    ensures TreeOf(v1, bs) == TreeOf(v0, bs)[c := if IsDirectory(f) then Directory(f.nlinks, []) else Plain(f.nlinks, [])]
    ensures WholeEntries(v0) ==> WholeEntries(v1)
  {
    hide Owned, Dense, SlotZone, Content, FileBytes, Entries, ZeroTail, Count;
    BlankSaysNothing(v0.zones, f, bs);
    assert FilesOf(v1, bs) == FilesOf(v0, bs)[c := File(f, 0)];
    NewFileOwned(v0.zones, bs / 4, FilesOf(v0, bs), owner, c, f);
  }

  lemma BlankSaysNothing(zs: Zones, f: Inode, bs: nat)
    requires bs >= 4 && Blank(f)
    ensures Count(f.size, bs) == 0 && Content(zs, f, bs / 4, 0) == [] && ZeroTail([], 0)
    ensures FileBytes(zs, f, bs) == [] && Entries([]) == []
  {
    CountBounds(0, bs);
  }

  // ---- another link count ----------------------------------------------------------

  lemma SameBytesRelinked(zs: Zones, f: Inode, nlinks: u16, bs: nat, n: nat)
    requires f.Wf() && bs >= 4
    ensures f.(nlinks := nlinks).Wf()
    ensures Content(zs, f.(nlinks := nlinks), bs / 4, n) == Content(zs, f, bs / 4, n)
    ensures FileBytes(zs, f.(nlinks := nlinks), bs) == FileBytes(zs, f, bs)
  {
    ContentFrame(zs, f, zs, f.(nlinks := nlinks), bs / 4, n);
    ContentFrame(zs, f, zs, f.(nlinks := nlinks), bs / 4, Count(f.size, bs));
  }

  /** The same node with another link count. */
  function Relinked(n: Node, nlinks: nat): Node
  {
    n.(nlinks := nlinks)
  }

  lemma Relink(sb: Superblock, bs: nat, v0: Volume, owner: Owners, i: nat, nlinks: u16, v1: Volume)
    requires AllWf(v0) && Consistent(sb, bs, v0, owner) && i in FilesOf(v0, bs)
    requires v1 == v0.(inodes := v0.inodes[i := v0.inodes[i].(nlinks := nlinks)])
    ensures AllWf(v1) && Consistent(sb, bs, v1, owner) && bs >= 64
    ensures i in TreeOf(v0, bs) && TreeOf(v1, bs) == TreeOf(v0, bs)[i := Relinked(TreeOf(v0, bs)[i], nlinks)]
    ensures WholeEntries(v0) ==> WholeEntries(v1)
  {
    hide Owned, Content, FileBytes, Entries, Dense, SlotZone, ZeroTail, Count;
    var f, files := v0.inodes[i], FilesOf(v0, bs);
    var f' := f.(nlinks := nlinks);
    SizeIsNoPointer(v0.zones, bs / 4, files, owner, i, f');
    SameBytesRelinked(v0.zones, f, nlinks, bs, files[i].count);
    assert FilesOf(v1, bs) == files[i := File(f', files[i].count)];
  }

  // ---- a file given up -------------------------------------------------------------

  ghost function OwnedByOthers(owner: Owners, i: nat): Owners
  {
    map z | z in owner && owner[z].0 != i :: owner[z]
  }

  lemma GiveUp(sb: Superblock, bs: nat, v0: Volume, owner: Owners, c: nat, v1: Volume)
    requires AllWf(v0) && Consistent(sb, bs, v0, owner)
    requires v1 == v0.(zoneMap := v0.zoneMap - Held(owner, c), inodeMap := v0.inodeMap - {c})
    ensures AllWf(v1) && Consistent(sb, bs, v1, OwnedByOthers(owner, c)) && bs >= 64
    ensures TreeOf(v1, bs) == TreeOf(v0, bs) - {c}
    ensures WholeEntries(v0) ==> WholeEntries(v1)
  {
    hide Owned, Content, FileBytes, Entries, ZeroTail, Count;
    RemoveKeepsOwned(v0.zones, bs / 4, FilesOf(v0, bs), owner, c);
    assert FilesOf(v1, bs) == FilesOf(v0, bs) - {c};
  }

  // ---- bytes overwritten in the middle of a file -------------------------------------

  lemma {:induction false} ContentSplice(bs: nat, zs: Zones, zs': Zones, f: Inode, n: nat, k: nat, off: nat, b: seq<byte>)
    requires bs >= 4 && f.Wf() && Sized(zs, bs) && Present(zs, f, bs / 4, n) && k < n && off + |b| <= bs
    requires zs' == zs[SlotZone(zs, f, bs / 4, Data(k)) := Splice(zs[SlotZone(zs, f, bs / 4, Data(k))], off, b)]
    requires forall m :: 0 <= m < n ==> SlotZone(zs', f, bs / 4, Data(m)) == SlotZone(zs, f, bs / 4, Data(m))
    requires forall m :: 0 <= m < n && m != k ==> SlotZone(zs, f, bs / 4, Data(m)) != SlotZone(zs, f, bs / 4, Data(k))
    ensures |Content(zs, f, bs / 4, n)| == Times(n, bs) && Times(k, bs) + bs <= Times(n, bs)
    ensures Content(zs', f, bs / 4, n) == Splice(Content(zs, f, bs / 4, n), Times(k, bs) + off, b)
  {
    hide SlotZone, Content, Splice, Times;
    var z := SlotZone(zs, f, bs / 4, Data(k));
    assert z in zs;
    if k == n - 1 {
      ContentChanged(bs, zs, zs', f, n, Splice(zs[z], off, b));
      SpliceEnd(Content(zs, f, bs / 4, n - 1), zs[z], off, b);
    } else {
      ContentSplice(bs, zs, zs', f, n - 1, k, off, b);
      ContentLength(zs, f, bs, n);
      ContentStep(zs, f, bs, n);
      ContentStep(zs', f, bs, n);
      SpliceFront(Content(zs, f, bs / 4, n - 1), ZoneBytes(zs, SlotZone(zs, f, bs / 4, Data(n - 1))), Times(k, bs) + off, b);
    }
  }

  lemma ContentStep(zs: Zones, f: Inode, bs: nat, n: nat)
    requires bs >= 4 && f.Wf() && n > 0
    ensures Content(zs, f, bs / 4, n)
         == Content(zs, f, bs / 4, n - 1) + ZoneBytes(zs, SlotZone(zs, f, bs / 4, Data(n - 1)))
    ensures Times(n, bs) == Times(n - 1, bs) + bs
  {
  }

  lemma SpliceFront<T>(a: seq<T>, c: seq<T>, at: nat, b: seq<T>)
    requires at + |b| <= |a|
    ensures Splice(a + c, at, b) == Splice(a, at, b) + c
  {
  }

  /** Overwriting inside the used part keeps the spare bytes zero and splices what the file says. */
  lemma TakenSplice(content: seq<byte>, size: nat, at: nat, b: seq<byte>)
    requires size <= |content| && at + |b| <= size && ZeroTail(content, size)
    ensures ZeroTail(Splice(content, at, b), size)
    ensures Take(Splice(content, at, b), size) == Splice(Take(content, size), at, b)
  {
  }

  /** Writing b at `off` in data zone k of file i patches what file i says there, and changes no other file. */
  lemma Overwrite(sb: Superblock, bs: nat, v0: Volume, owner: Owners, i: nat, k: nat, off: nat, b: seq<byte>, v1: Volume)
    requires AllWf(v0) && Consistent(sb, bs, v0, owner) && i in FilesOf(v0, bs)
    requires var f := v0.inodes[i];
      k < Count(f.size, bs) && off + |b| <= bs && Times(k, bs) + off + |b| <= f.size
      && SlotZone(v0.zones, f, bs / 4, Data(k)) in v0.zones
      && v1 == v0.(zones := v0.zones[SlotZone(v0.zones, f, bs / 4, Data(k)) :=
                                       Splice(v0.zones[SlotZone(v0.zones, f, bs / 4, Data(k))], off, b)])
    ensures AllWf(v1) && Consistent(sb, bs, v1, owner) && bs >= 64
    ensures |FileBytes(v0.zones, v0.inodes[i], bs)| == v0.inodes[i].size
    ensures FileBytes(v1.zones, v0.inodes[i], bs)
         == Splice(FileBytes(v0.zones, v0.inodes[i], bs), Times(k, bs) + off, b)
    ensures forall j :: j in FilesOf(v0, bs) && j != i ==>
              FileBytes(v1.zones, v0.inodes[j], bs) == FileBytes(v0.zones, v0.inodes[j], bs)
  {
    hide Owned, SlotZone, TouchesOnly, Content, Present, ZeroTail, Splice, Times, Sized;
    var files, f, n, ppz := FilesOf(v0, bs), v0.inodes[i], Count(v0.inodes[i].size, bs), bs / 4;
    var z := SlotZone(v0.zones, f, ppz, Data(k));
    SizedAt(v0.zones, bs, z);
    OneZoneOnly(bs, v0.zones, v1.zones, files, owner, i, k, Splice(v0.zones[z], off, b));
    ContentSplice(bs, v0.zones, v1.zones, f, n, k, off, b);
    CountBounds(f.size, bs);
    TakenSplice(Content(v0.zones, f, ppz, n), f.size, Times(k, bs) + off, b);
    assert FilesOf(v1, bs) == files;
    forall j | j in files && j != i
      ensures Content(v1.zones, v0.inodes[j], ppz, files[j].count) == Content(v0.zones, v0.inodes[j], ppz, files[j].count)
    {
      OtherFileSame(v0.zones, v1.zones, ppz, files, owner, i, j);
    }
    StillSized(v0.zones, bs, z, Splice(v0.zones[z], off, b));
  }

  lemma SizedAt(zs: Zones, bs: nat, z: nat)
    requires Sized(zs, bs) && z in zs
    ensures |zs[z]| == bs
  {
  }

  lemma StillSized(zs: Zones, bs: nat, z: nat, b: seq<byte>)
    requires Sized(zs, bs) && |b| == bs
    ensures Sized(zs[z := b], bs)
  {
  }

  // ---- changes no file sees ---------------------------------------------------------

  /** Writing to a zone nobody owns changes no file. */
  lemma WriteUnowned(sb: Superblock, bs: nat, v0: Volume, owner: Owners, z: nat, block: seq<byte>, v1: Volume)
    requires AllWf(v0) && Consistent(sb, bs, v0, owner) && z in v0.zones && z !in owner && |block| == bs
    requires v1 == v0.(zones := v0.zones[z := block])
    ensures AllWf(v1) && Consistent(sb, bs, v1, owner) && bs >= 64
    ensures TreeOf(v1, bs) == TreeOf(v0, bs)
    ensures WholeEntries(v0) ==> WholeEntries(v1)
  {
    hide Owned, SlotZone, TouchesOnly, Content, Entries, ZeroTail, Count, Sized;
    var files, ppz := FilesOf(v0, bs), bs / 4;
    assert FilesOf(v1, bs) == files;
    forall j | j in files
      ensures Content(v1.zones, v0.inodes[j], ppz, files[j].count) == Content(v0.zones, v0.inodes[j], ppz, files[j].count)
      ensures Owned(v1.zones, ppz, files, owner)
    {
      WriteKeepsOwned(v0.zones, v1.zones, ppz, files, owner, j + 1);
      OtherFileSame(v0.zones, v1.zones, ppz, files, owner, j + 1, j);
    }
    WriteKeepsOwned(v0.zones, v1.zones, ppz, files, owner, 0);
    StillSized(v0.zones, bs, z, block);
  }

  /** Writing the inode of a node that does not exist changes no file. */
  lemma RelinkUnmarked(sb: Superblock, bs: nat, v0: Volume, owner: Owners, i: nat, f: Inode, v1: Volume)
    requires AllWf(v0) && Consistent(sb, bs, v0, owner) && i !in v0.inodeMap && f.Wf()
    requires v1 == v0.(inodes := v0.inodes[i := f])
    ensures AllWf(v1) && Consistent(sb, bs, v1, owner) && bs >= 64
    ensures TreeOf(v1, bs) == TreeOf(v0, bs)
    ensures WholeEntries(v0) ==> WholeEntries(v1)
  {
    hide Owned, SlotZone, Content, Entries, ZeroTail, Count, Sized;
    assert FilesOf(v1, bs) == FilesOf(v0, bs);
  }

  /** A file that uses direct pointers only stays sound whatever the zones say. */
  lemma DirectSound(sb: Superblock, bs: nat, v0: Volume, v1: Volume, f: Inode, n: nat)
    requires Sound(sb, bs, v0, f, n) && n <= IDZONE && v1.zones.Keys == v0.zones.Keys && Sized(v1.zones, bs)
    ensures Sound(sb, bs, v1, f, n)
  {
    var ppz := bs / 4;
    assert IsSlot(ppz, Ind) && SlotZone(v0.zones, f, ppz, Ind) == f.zones[IDZONE];
    assert IsSlot(ppz, DInd) && SlotZone(v0.zones, f, ppz, DInd) == f.zones[IIDZONE];
    forall s | IsSlot(ppz, s) ensures SlotZone(v1.zones, f, ppz, s) == SlotZone(v0.zones, f, ppz, s) { }
  }
}
