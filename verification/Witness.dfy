/**
 * States that meet what the other modules assume of the kernel's memory and of a mounted volume, each built from
 * nothing: a heap on fresh memory, and a volume with an empty root directory.
 */
module Witness {
  import Arith
  import opened Bytes
  import P = Page
  import M = Mmu
  import H = HeapPages
  import K = Kmalloc
  import B = Block
  import L = Minix3Layout
  import D = Minix3Disk
  import opened Minix3Append
  import opened Minix3Entries
  import opened Minix3Tree
  import opened Minix3Nodes
  import Dirs = Minix3Dirs

  // ---- memory ------------------------------------------------------------------------

  const PAGES: nat := 1000

  /** An entry of a page of zeros. */
  lemma ZeroEntry(mem: seq<P.u64>, p: nat, i: nat)
    requires i < M.ENTRIES && (p + 1) * P.PAGE_WORDS <= |mem|
    requires forall w :: p * P.PAGE_WORDS <= w < (p + 1) * P.PAGE_WORDS ==> mem[w] == 0
    ensures M.Entry(mem, p, i) == 0 && !M.IsValid(0)
  {
  }

  /** A page of zeros is a table tree that maps nothing. */
  lemma EmptyTree(mem: seq<P.u64>, fb: nat, p: nat)
    requires (p + 1) * P.PAGE_WORDS <= |mem| && forall w :: p * P.PAGE_WORDS <= w < (p + 1) * P.PAGE_WORDS ==> mem[w] == 0
    ensures M.Tree(mem, fb, p, map[p := M.Root]) && H.Translated(mem, fb, p, [])
  {
    hide M.Entry, M.IsValid, M.Translate, M.Vpn;
    var tables := map[p := M.Root];
    forall i | 0 <= i < M.ENTRIES ensures !M.IsValid(M.Entry(mem, p, i)) { ZeroEntry(mem, p, i); }
    assert M.Tree(mem, fb, p, tables);
    forall u: P.u64 ensures M.Translate(mem, fb, p, u) == M.NO_ADDRESS {
      M.TranslateIsLookup(mem, fb, p, tables, u);
    }
  }

  /** A kernel heap on fresh memory: allocator, page table and heap set up one after the other. */
  method FreshHeap(start: nat) returns (heap: K.KernelHeap)
    requires start % P.PAGE_SIZE == 0 && start > 0 && start + PAGES * P.PAGE_SIZE <= P.PHYSICAL_LIMIT
    ensures heap.Valid()
  {
    hide M.Tree, M.Held, P.WellFormed, H.Translated;
    var ram := new P.Ram(start, PAGES);
    ram.PageInit();
    assert 50 in M.FreePages(ram.State(), PAGES);
    M.LowestExists(ram.State(), PAGES);
    ghost var r := ram.State();
    var pt, root := ram.PageZnalloc(1);
    ghost var tables := map[root := M.Root];
    P.AllocateKeeps(r, PAGES, root, 1);
    EmptyTree(ram.Memory(), ram.FrameBase(), root);
    RootHeld(r, root);
    var mem := new H.KernelMemory(ram, pt, root, tables);
    EnoughPages(r, root, tables);
    heap := new K.KernelHeap(mem);
  }

  lemma RootHeld(r: P.Runs, root: nat)
    requires r == P.Runs(P.Range(0, 1), {0}) && P.LowestRun(r, PAGES, 1, root)
    ensures M.Held(P.Allocate(r, root, 1), PAGES - 1, map[root := M.Root]) && 0 in P.Allocate(r, root, 1).taken
  {
    assert root in P.Range(root, root + 1);
  }

  lemma EnoughPages(r: P.Runs, root: nat, tables: M.Tables)
    requires r == P.Runs(P.Range(0, 1), {0}) && P.LowestRun(r, PAGES, 1, root)
    ensures |M.FreePages(P.Allocate(r, root, 1), PAGES)| >= 1 + M.Missing(M.PathsFor(H.HEAP_BASE, 1), M.PathsOf(tables))
  {
    hide M.PathsTo, M.PathsOf, M.PathsFor, M.FreePages, P.Allocate, P.LowestRun;
    ThreeFree(r, root);
    var paths := M.PathsFor(H.HEAP_BASE, 1);
    OnePage(H.HEAP_BASE);
    TwoPaths(H.HEAP_BASE);
    Smaller(paths - M.PathsOf(tables), paths);
  }

  lemma ThreeFree(r: P.Runs, root: nat)
    requires r == P.Runs(P.Range(0, 1), {0})
    ensures |M.FreePages(P.Allocate(r, root, 1), PAGES)| >= 3
  {
    var free, some: set<nat> := M.FreePages(P.Allocate(r, root, 1), PAGES), {10, 11, 12, 13};
    assert P.Range(root, root + 1) == {root};
    assert some - {root} <= free;
    Smaller(some - {root}, free);
    assert |some - {root}| >= 3;
  }

  lemma OnePage(v: nat)
    requires v + P.PAGE_SIZE <= M.VIRTUAL_LIMIT
    ensures M.PathsFor(v, 1) == M.PathsTo(v)
  {
    hide M.PathsTo;
    assert M.PathsFor(v, 0) == {};
  }

  lemma TwoPaths(v: P.u64)
    ensures |M.PathsTo(v)| <= 2
  {
    hide M.Vpn;
    var mid, low := M.Mid(M.Vpn(v, 2)), M.Low(M.Vpn(v, 2), M.Vpn(v, 1));
    assert M.PathsTo(v) == {mid, low};
  }

  lemma Smaller<T>(a: set<T>, b: set<T>)
    requires a <= b
    ensures |a| <= |b|
  {
    assert b == a + (b - a);
  }

  // ---- a volume --------------------------------------------------------------------------

  const BLOCK: nat := 64
  const CAPACITY: nat := 1408
  const SMALL: L.Superblock := L.Superblock(1, 1, 1, 20, 2, 64)

  /** The image of a volume with one inode, two zones and nothing marked. */
  function SmallByte(k: int): byte
  {
    if k == 1024 then 1                          // one inode
    else if k == 1030 || k == 1032 then 1        // one block for each bitmap
    else if k == 1034 then 20                    // first data zone
    else if k == 1044 then 2                     // two zones
    else if k == 1052 then 64                    // block size
    else 0
  }

  lemma TimesSmall()
    ensures Arith.Times(1, BLOCK) == 64 && Arith.Times(20, BLOCK) == 1280 && Arith.Times(22, BLOCK) == 1408
  {
    Arith.AsProduct(1, BLOCK);
    Arith.AsProduct(20, BLOCK);
    Arith.AsProduct(22, BLOCK);
  }

  lemma SmallFits(img: seq<byte>)
    requires |img| == CAPACITY && forall k :: 0 <= k < CAPACITY ==> img[k] == SmallByte(k)
    ensures L.Fits(SMALL, img) && L.InodeMap(SMALL, img) == {} && L.ZoneMap(SMALL, img) == {}
  {
    TimesSmall();
    var b := img[1024..1056];
    assert L.DecodeSuperblock(b) == SMALL;
    assert L.Fits(SMALL, img);
  }

  /** A store with nothing in it is consistent. */
  lemma NothingInIt(v: L.Volume)
    requires v.inodeMap == {} && SmallZones(v) && forall i :: i in v.inodes ==> v.inodes[i].Wf()
    ensures AllWf(v) && Consistent(SMALL, BLOCK, v, map[]) && WholeEntries(v)
    ensures TreeOf(v, BLOCK) == map[]
  {
    assert FilesOf(v, BLOCK) == map[];
  }

  ghost predicate SmallZones(v: L.Volume)
  {
    (forall z :: z in v.zones ==> |v.zones[z]| == BLOCK) && forall z :: z in v.zones <==> L.InZones(SMALL, z)
  }

  method BlankStore() returns (fs: D.FileStore)
    ensures fresh(fs) && fresh(fs.dev.data) && Orderly(fs) && fs.sb == SMALL && fs.bs == BLOCK
    ensures TreeNow(fs) == map[] && fs.Vol().inodeMap == {} && fs.Vol().zoneMap == {} && fs.zoneCursor == 0
  {
    hide Consistent, WholeEntries, TreeOf, L.Fits, L.InodeMap, L.ZoneMap;
    var dev := new B.BlockDevice(BLOCK, CAPACITY);
    forall k | 0 <= k < CAPACITY { dev.data[k] := SmallByte(k); }
    SmallFits(dev.Image());
    fs := new D.FileStore(dev, BLOCK, SMALL, map[]);
    NothingInIt(fs.Vol());
  }

  /** A root directory that holds its "." and ".." is a tree. */
  lemma RootAlone()
    ensures WfTree(map[ROOT := Directory(2, [Entry(ROOT, DOT), Entry(ROOT, DOT_DOT)])])
  {
    var t: Tree := map[ROOT := Directory(2, [Entry(ROOT, DOT), Entry(ROOT, DOT_DOT)])];
    assert Subdirs(t, t[ROOT].entries) == {};
    var rank: map<nat, nat> := map[ROOT := 0];
    assert Ranked(t, rank);
    assert DirOk(t, ROOT);
  }

  /** A volume with an empty root directory, as the operations of Minix3Dirs expect it. */
  method FreshVolume() returns (fs: D.FileStore)
    ensures Dirs.Ready(fs) && TreeNow(fs) == map[ROOT := Directory(2, [Entry(ROOT, DOT), Entry(ROOT, DOT_DOT)])]
  {
    hide Orderly, TreeNow, WfTree;
    fs := BlankStore();
    MakeRoot(fs);
    RootAlone();
  }

  method MakeRoot(fs: D.FileStore)
    requires Orderly(fs) && fs.sb == SMALL && fs.bs == BLOCK
    requires TreeNow(fs) == map[] && fs.Vol().inodeMap == {} && fs.Vol().zoneMap == {} && fs.zoneCursor == 0
    modifies fs.dev.data, fs`zoneCursor, fs`owner
    ensures Orderly(fs) && TreeNow(fs) == map[ROOT := Directory(2, [Entry(ROOT, DOT), Entry(ROOT, DOT_DOT)])]
  {
    hide L.Fits, L.Meaning, Consistent, TreeOf, WholeEntries, D.FileStore.Mounted, Dirs.DotZones, D.FreeAhead;
    var f := Dirs.NewFile(MODE_DIRECTORY + MODE_777, Dirs.UID_MISHLER, Dirs.GID_MISHLER).(nlinks := 2);
    Dirs.MakeInode(fs, ROOT, f);
    assert TreeNow(fs) == map[ROOT := Directory(2, [])];
    TwoFree();
    Dirs.DotZonesBounds(BLOCK);
    Dirs.AppendDots(fs, ROOT, ROOT);
  }

  lemma TwoFree()
    ensures |D.FreeAhead(SMALL, {}, 0)| == 2
  {
    assert D.FreeAhead(SMALL, {}, 0) == {20, 21};
  }
}
