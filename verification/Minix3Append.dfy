/**
 * Growing and reading files (minix3_append_zone, minix3_append_to_file, minix3_read_from_file).
 */
module Minix3Append {
  import opened Bytes
  import opened Arith
  import opened Minix3Layout
  import opened Minix3Slots
  import opened Minix3Files
  import opened Minix3Disk
  import opened Minix3Walker

  // ---- what holds between operations ---------------------------------------

  /** The files of a volume: the occupied inodes of the table. */
  ghost function FilesOf(v: Volume, bs: nat): Files
    requires bs > 0
  {
    map i | i in v.inodes && i in v.inodeMap :: File(v.inodes[i], Count(v.inodes[i].size, bs))
  }

  /** Ownership of zones by `files`; while a file is being grown its entry is ahead of the inode on disk. */
  ghost predicate Coherent(sb: Superblock, bs: nat, v: Volume, files: Files, owner: Owners)
  {
    && bs >= 64 && bs % 64 == 0 && sb.firstDataZone >= 1 && ZoneEnd(sb) < 0x1_0000_0000
    && Sized(v.zones, bs) && (forall z :: z in v.zones <==> InZones(sb, z))
    && Owned(v.zones, bs / 4, files, owner)
    && owner.Keys <= v.zoneMap
  }

  /** The bytes of the last zone past the end of the file are zero. */
  ghost predicate ZeroTail(content: seq<byte>, size: nat)
  {
    forall k :: size <= k < |content| ==> content[k] == 0
  }

  ghost predicate ZeroTails(zs: Zones, bs: nat, files: Files)
    requires bs >= 4
  {
    forall i :: i in files && files[i].inode.Wf() ==>
      ZeroTail(Content(zs, files[i].inode, bs / 4, files[i].count), files[i].inode.size)
  }

  /** The whole store is consistent. */
  ghost predicate Consistent(sb: Superblock, bs: nat, v: Volume, owner: Owners)
  {
    && bs > 0 && Coherent(sb, bs, v, FilesOf(v, bs), owner)
    && ZeroTails(v.zones, bs, FilesOf(v, bs))
  }

  lemma CoherentSound(sb: Superblock, bs: nat, v: Volume, files: Files, owner: Owners, i: nat)
    requires Coherent(sb, bs, v, files, owner) && i in files
    ensures Sound(sb, bs, v, files[i].inode, files[i].count)
  {
    OwnedFile(v.zones, bs / 4, files, owner, i);
  }

  // ---- the end of a file -----------------------------------------------------

  /** minix3_get_last_file_zone: guess from the size, then correct upwards while more than a block remains. */
  method GetLastFileZone(fs: FileStore, f: Inode, ghost n: nat) returns (zoneNum: nat)
    requires Walkable(fs, f, n) && n == Count(f.size, fs.bs)
    modifies fs`zoneCursor
    ensures fs.zoneCursor == old(fs.zoneCursor)
    ensures zoneNum == if n == 0 then 0 else n - 1
  {
    hide Fits, Meaning, Dense, Unshared, Sound, Count, Remaining;
    IndirectPointer(fs.sb, fs.bs, fs.Vol(), f, n);
    LastZone(f.size, fs.bs);
    if f.size == 0 {
      return 0;
    }
    zoneNum := Quotient(f.size - 1, fs.bs);
    LastZoneGuess(f.size, fs.bs);
    var _, remaining := Gzbars(fs, f, zoneNum, n);
    while remaining > fs.bs
      invariant 0 <= zoneNum < n && remaining == Remaining(f.size, fs.bs, zoneNum)
      invariant fs.Mounted() && fs.zoneCursor == old(fs.zoneCursor)
      decreases n - zoneNum
    {
      LastZoneAt(f.size, fs.bs, zoneNum);
      zoneNum := zoneNum + 1;
      var _, next := Gzbars(fs, f, zoneNum, n);
      remaining := next;
    }
    LastZoneAt(f.size, fs.bs, zoneNum);
  }

  lemma LastZone(size: nat, bs: nat)
    ensures bs > 0 ==> (Count(size, bs) == 0 <==> size == 0)
  {
    if bs > 0 { CountBounds(size, bs); }
  }

  lemma LastZoneGuess(size: nat, bs: nat)
    requires bs > 0 && size > 0
    ensures Quot(size - 1, bs) < Count(size, bs)
  {
    QuotRest(size - 1, bs);
    CountBounds(size, bs);
    TimesOrder(Quot(size - 1, bs), Count(size, bs), bs);
  }

  /** Exactly the last zone has at most a block left and something left. */
  lemma LastZoneAt(size: nat, bs: nat, i: nat)
    requires bs > 0 && i < Count(size, bs)
    ensures Remaining(size, bs, i) > 0
    ensures Remaining(size, bs, i) > bs <==> i + 1 < Count(size, bs)
  {
    var n := Count(size, bs);
    CountBounds(size, bs);
    assert Times(n, bs) == Times(n - 1, bs) + bs;
    TimesMono(i, n - 1, bs);
    if i + 1 < n { TimesMono(i + 1, n - 1, bs); }
    assert Times(i + 1, bs) == Times(i, bs) + bs;
  }

  // ---- one more zone -----------------------------------------------------------

  /** The zone at the end of the walk, taken and zeroed before the walk: v1 is v0 with t zeroed and marked. */
  lemma TakenForData(fs: FileStore, v0: Volume, files: Files, owner: Owners, i: nat, t: nat, v1: Volume)
    requires fs.bs >= 4 && Coherent(fs.sb, fs.bs, v0, files, owner) && i in files
    requires InZones(fs.sb, t) && t !in v0.zoneMap
    requires v1 == v0.(zones := v0.zones[t := Zeros(fs.bs)], zoneMap := v0.zoneMap + {t})
    ensures t !in owner && Coherent(fs.sb, fs.bs, v1, files, owner) && TouchesOnly(v0.zones, v1.zones, owner, i)
    ensures Sound(fs.sb, fs.bs, v1, files[i].inode, files[i].count)
    ensures NotPointer(v1.zones, files[i].inode, fs.bs / 4, files[i].count, t)
    ensures forall s :: Live(fs.bs / 4, files[i].count, s) ==>
              SlotZone(v1.zones, files[i].inode, fs.bs / 4, s) in v1.zoneMap
    ensures forall s :: IsSlot(fs.bs / 4, s) ==>
              SlotZone(v1.zones, files[i].inode, fs.bs / 4, s) == SlotZone(v0.zones, files[i].inode, fs.bs / 4, s)
  {
    WriteKeepsOwned(v0.zones, v1.zones, fs.bs / 4, files, owner, i);
    OwnedFile(v1.zones, fs.bs / 4, files, owner, i);
    CoherentSound(fs.sb, fs.bs, v1, files, owner, i);
  }

  /** The set walk writes to the zones it gave and to pointer blocks of its own file. */
  lemma TouchedByWalk(fs: FileStore, v1: Volume, files: Files, owner: Owners, i: nat, t: nat, free1: set<nat>,
                      v: Volume, free: set<nat>, f: Inode, given: map<Slot, nat>, z: nat)
    requires fs.bs >= 4 && Coherent(fs.sb, fs.bs, v1, files, owner) && i in files && files[i].inode.Wf()
    requires Hung(fs, v1, free1, files[i].inode, v, free, f, files[i].count, t, given)
    requires (forall y :: y in free1 ==> y !in v1.zoneMap) && t !in owner && z in v1.zones && v.zones[z] != v1.zones[z]
    ensures z != t && (z !in owner || (owner[z].0 == i && !owner[z].1.Data?))
  {
    var ppz, f0, n := fs.bs / 4, files[i].inode, files[i].count;
    OwnedFile(v1.zones, ppz, files, owner, i);
    if z in given.Values && z != t {
      var s :| s in given && given[s] == z;
      assert s != Data(n) && given[s] in free1;
    } else {
      assert !NotPointer(v1.zones, f0, ppz, n, z);
      var s :| Live(ppz, n, s) && IsPointerSlot(s) && SlotZone(v1.zones, f0, ppz, s) == z;
      assert z in owner && owner[z] == (i, s);
    }
  }

  lemma GivenAreFresh(fs: FileStore, v0: Volume, v1: Volume, owner: Owners, f0: Inode, n: nat, t: nat, free0: set<nat>,
                      v: Volume, free: set<nat>, f: Inode, given: map<Slot, nat>)
    requires fs.bs >= 4 && f0.Wf() && fs.sb.firstDataZone >= 1
    requires (forall z :: z in v0.zones <==> InZones(fs.sb, z)) && owner.Keys <= v0.zoneMap
    requires t in free0 && (forall z :: z in free0 ==> InZones(fs.sb, z) && z !in v0.zoneMap)
    requires v1 == v0.(zones := v0.zones[t := Zeros(fs.bs)], zoneMap := v0.zoneMap + {t})
    requires Hung(fs, v1, free0 - {t}, f0, v, free, f, n, t, given)
    ensures Distinct(given) && given.Values <= free0
    ensures forall s :: s in given ==> given[s] in v0.zones && given[s] !in owner && given[s] != 0
    ensures v == v0.(zones := v.zones, zoneMap := v0.zoneMap + given.Values) && free == free0 - given.Values
  {
    forall s | s in given ensures given[s] in free0 { if s == Data(n) { } }
    assert t == given[Data(n)] && t in given.Values;
    assert v0.zoneMap + {t} + given.Values == v0.zoneMap + given.Values;
    assert free0 - {t} - given.Values == free0 - given.Values;
  }

  /** The first n data zones read as before, and the new one is all zeros. */
  lemma ContentGrown(fs: FileStore, v0: Volume, v1: Volume, files: Files, owner: Owners, i: nat, t: nat,
                     v: Volume, f: Inode, given: map<Slot, nat>)
    requires fs.bs >= 4 && Coherent(fs.sb, fs.bs, v0, files, owner) && i in files && files[i].inode.Wf() && f.Wf()
    requires files[i].count < MaxZones(fs.bs / 4)
    requires t !in owner && t in v0.zones && v1.zones == v0.zones[t := Zeros(fs.bs)]
    requires forall s :: IsSlot(fs.bs / 4, s) ==>
               SlotZone(v1.zones, files[i].inode, fs.bs / 4, s) == SlotZone(v0.zones, files[i].inode, fs.bs / 4, s)
    requires Grown(v1.zones, files[i].inode, v.zones, f, fs.bs / 4, files[i].count, given)
    requires Data(files[i].count) in given && given[Data(files[i].count)] == t
    requires forall z :: z in v1.zones && v.zones[z] != v1.zones[z] ==>
               z != t && (z !in owner || (owner[z].0 == i && !owner[z].1.Data?))
    ensures Content(v.zones, f, fs.bs / 4, files[i].count + 1)
         == Content(v0.zones, files[i].inode, fs.bs / 4, files[i].count) + Zeros(fs.bs)
  {
    var ppz, f0, n := fs.bs / 4, files[i].inode, files[i].count;
    OwnedFile(v0.zones, ppz, files, owner, i);
    forall k | 0 <= k < n
      ensures ZoneBytes(v.zones, SlotZone(v.zones, f, ppz, Data(k)))
           == ZoneBytes(v0.zones, SlotZone(v0.zones, f0, ppz, Data(k)))
    {
      assert IsSlot(ppz, Data(k)) && Live(ppz, n, Data(k));
      NewSlotsAreNew(ppz, n, Data(k));
      var z := SlotZone(v0.zones, f0, ppz, Data(k));
      assert z in owner && owner[z] == (i, Data(k));
    }
    ContentFrame(v0.zones, f0, v.zones, f, ppz, n);
    assert IsSlot(ppz, Data(n));
  }

  /** Hanging a fresh data zone t keeps the store coherent and adds a block of zeros to the file. */
  lemma GrownByWalk(fs: FileStore, v0: Volume, files: Files, owner: Owners, i: nat, t: nat, free0: set<nat>,
                    v1: Volume, v: Volume, free: set<nat>, f: Inode, given: map<Slot, nat>)
    requires fs.bs >= 4 && Coherent(fs.sb, fs.bs, v0, files, owner) && i in files && files[i].inode.Wf()
    requires files[i].count < MaxZones(fs.bs / 4)
    requires t in free0 && (forall z :: z in free0 ==> InZones(fs.sb, z) && z !in v0.zoneMap)
    requires v1 == v0.(zones := v0.zones[t := Zeros(fs.bs)], zoneMap := v0.zoneMap + {t})
    requires Hung(fs, v1, free0 - {t}, files[i].inode, v, free, f, files[i].count, t, given) && Sized(v.zones, fs.bs)
    ensures Distinct(given) && given.Keys == NewSlots(fs.bs / 4, files[i].count) && given.Values <= free0
    ensures Coherent(fs.sb, fs.bs, v, files[i := File(f, files[i].count + 1)], owner + OwnersOf(i, given))
    ensures TouchesOnly(v0.zones, v.zones, owner, i)
    ensures v == v0.(zones := v.zones, zoneMap := v0.zoneMap + given.Values) && free == free0 - given.Values
    ensures f.Wf() && f == files[i].inode.(zones := f.zones)
    ensures Content(v.zones, f, fs.bs / 4, files[i].count + 1)
         == Content(v0.zones, files[i].inode, fs.bs / 4, files[i].count) + Zeros(fs.bs)
  {
    hide Owned, Dense, Unshared, SlotZone, NotPointer, Sound;
    var f0, n := files[i].inode, files[i].count;
    TakenForData(fs, v0, files, owner, i, t, v1);
    GivenAreFresh(fs, v0, v1, owner, f0, n, t, free0, v, free, f, given);
    forall z | z in v1.zones && v.zones[z] != v1.zones[z]
      ensures z != t && (z !in owner || (owner[z].0 == i && !owner[z].1.Data?))
    {
      TouchedByWalk(fs, v1, files, owner, i, t, free0 - {t}, v, free, f, given, z);
    }
    assert TouchesOnly(v1.zones, v.zones, owner, i);
    GrowKeepsOwned(v1.zones, v.zones, fs.bs / 4, files, owner, i, f, given);
    assert Data(n) in given;
    ContentGrown(fs, v0, v1, files, owner, i, t, v, f, given);
  }

  lemma CanHangData(fs: FileStore, v1: Volume, files: Files, owner: Owners, i: nat, t: nat, free1: set<nat>)
    requires fs.bs >= 4 && Coherent(fs.sb, fs.bs, v1, files, owner) && i in files && files[i].count < MaxZones(fs.bs / 4)
    requires Sound(fs.sb, fs.bs, v1, files[i].inode, files[i].count) && InZones(fs.sb, t) && t in v1.zoneMap
    requires NotPointer(v1.zones, files[i].inode, fs.bs / 4, files[i].count, t)
    requires |free1| >= |NewSlots(fs.bs / 4, files[i].count)| - 1
    requires forall z :: z in free1 ==> InZones(fs.sb, z) && z !in v1.zoneMap
    requires forall s :: Live(fs.bs / 4, files[i].count, s) ==>
               SlotZone(v1.zones, files[i].inode, fs.bs / 4, s) in v1.zoneMap
    ensures CanHang(fs.sb, fs.bs, v1, free1, files[i].inode, files[i].count, t)
  {
  }

  lemma NewSlotsSize(ppz: nat, n: nat)
    requires ppz > 0
    ensures |NewSlots(ppz, n)| >= 1
  {
    assert Data(n) in NewSlots(ppz, n);
  }

  /** minix3_append_zone: one more data zone, all zeros, at the end of file i. */
  method AppendZone(fs: FileStore, f0: Inode, ghost files: Files, ghost i: nat)
    returns (zone: nat, f: Inode, ghost given: map<Slot, nat>)
    requires fs.Mounted() && fs.bs >= 4 && Coherent(fs.sb, fs.bs, fs.Vol(), files, fs.owner)
    requires i in files && files[i].inode == f0 && f0.Wf() && files[i].count == Count(f0.size, fs.bs) < MaxZones(fs.bs / 4)
    requires |FreeAhead(fs.sb, fs.Vol().zoneMap, fs.zoneCursor)| >= |NewSlots(fs.bs / 4, files[i].count)|
    modifies fs.dev.data, fs`zoneCursor, fs`owner
    ensures fs.Mounted() && f.Wf() && f == f0.(zones := f.zones)
    ensures Coherent(fs.sb, fs.bs, fs.Vol(), files[i := File(f, files[i].count + 1)], fs.owner)
    ensures TouchesOnly(old(fs.Vol()).zones, fs.Vol().zones, old(fs.owner), i)
    ensures Distinct(given) && given.Keys == NewSlots(fs.bs / 4, files[i].count)
    ensures given.Values <= old(FreeAhead(fs.sb, fs.Vol().zoneMap, fs.zoneCursor))
    ensures fs.Vol() == old(fs.Vol()).(zones := fs.Vol().zones, zoneMap := old(fs.Vol()).zoneMap + given.Values)
    ensures fs.owner == old(fs.owner) + OwnersOf(i, given)
    ensures FreeAhead(fs.sb, fs.Vol().zoneMap, fs.zoneCursor)
         == old(FreeAhead(fs.sb, fs.Vol().zoneMap, fs.zoneCursor)) - given.Values
    ensures zone == SlotZone(fs.Vol().zones, f, fs.bs / 4, Data(files[i].count))
    ensures Content(fs.Vol().zones, f, fs.bs / 4, files[i].count + 1)
         == Content(old(fs.Vol()).zones, f0, fs.bs / 4, files[i].count) + Zeros(fs.bs)
  {
    hide Fits, Meaning, Coherent, Sound, CanHang, Hung, SlotZone, Content, FreeAhead, Count, NotPointer, NewSlots, TouchesOnly;
    ghost var v0, free0, n := fs.Vol(), FreeAhead(fs.sb, fs.Vol().zoneMap, fs.zoneCursor), files[i].count;
    FreeAreFree(fs.sb, v0.zoneMap, fs.zoneCursor);
    CoherentSound(fs.sb, fs.bs, v0, files, fs.owner, i);
    LastZone(f0.size, fs.bs);
    NewSlotsSize(fs.bs / 4, n);
    SomeLeft(free0);
    var nextZone := 0;
    if f0.size != 0 {
      nextZone := GetLastFileZone(fs, f0, n);
      nextZone := nextZone + 1;
    }
    var r := fs.GetAvailableZone();
    var newZone := r.value;
    var _ := fs.SetZoneAs(newZone, true);
    ghost var v1, free1 := fs.Vol(), FreeAhead(fs.sb, fs.Vol().zoneMap, fs.zoneCursor);
    FreeAfterTaking(fs.sb, v0.zoneMap, fs.zoneCursor, newZone);
    assert free1 == free0 - {newZone};
    TakenForData(fs, v0, files, fs.owner, i, newZone, v1);
    FreeAreFree(fs.sb, v1.zoneMap, fs.zoneCursor);
    CanHangData(fs, v1, files, fs.owner, i, newZone, free1);
    var remaining;
    zone, f, remaining, given := ZoneWalker(fs, f0, nextZone, true, newZone, n);
    GrownByWalk(fs, v0, files, fs.owner, i, newZone, free0, v1, fs.Vol(),
                FreeAhead(fs.sb, fs.Vol().zoneMap, fs.zoneCursor), f, given);
    HungAtEnd(fs, v1, free1, f0, fs.Vol(), FreeAhead(fs.sb, fs.Vol().zoneMap, fs.zoneCursor), f, n, newZone, given);
    fs.owner := fs.owner + OwnersOf(i, given);
  }

  lemma HungAtEnd(fs: FileStore, v0: Volume, free0: set<nat>, f0: Inode, v: Volume, free: set<nat>, f: Inode,
                  n: nat, target: nat, given: map<Slot, nat>)
    requires fs.bs >= 4 && f0.Wf() && n < MaxZones(fs.bs / 4) && Hung(fs, v0, free0, f0, v, free, f, n, target, given)
    ensures f.Wf() && SlotZone(v.zones, f, fs.bs / 4, Data(n)) == target
  {
    assert IsSlot(fs.bs / 4, Data(n)) && Data(n) in given;
  }

  lemma FreeAreFree(sb: Superblock, zoneMap: set<nat>, cursor: nat)
    ensures forall z :: z in FreeAhead(sb, zoneMap, cursor) ==> InZones(sb, z) && z !in zoneMap
  {
  }

  lemma FreeAfterTaking(sb: Superblock, zoneMap: set<nat>, cursor: nat, z: nat)
    ensures FreeAhead(sb, zoneMap + {z}, cursor) == FreeAhead(sb, zoneMap, cursor) - {z}
  {
  }

  // ---- writing at the end ----------------------------------------------------

  /** Pointer zones and data zones a file takes to grow from n to m data zones. */
  function ZonesNeeded(ppz: nat, n: nat, m: nat): nat
    requires ppz > 0
    decreases m - n
  {
    if n >= m then 0 else |NewSlots(ppz, n)| + ZonesNeeded(ppz, n + 1, m)
  }

  /** The (m + 1)-th data zone takes itself and, at the borders of the flat table, one or two pointer blocks. */
  lemma {:induction false} ZonesForNext(ppz: nat, n: nat, m: nat)
    requires ppz > 0 && n <= m
    ensures ZonesNeeded(ppz, n, n) == 0
    ensures ZonesNeeded(ppz, n, m + 1) == ZonesNeeded(ppz, n, m) + 1
              + (if m == 7 then 1 else 0) + (if m == 7 + ppz then 1 else 0)
              + (if m >= 7 + ppz && Rest(m - 7 - ppz, ppz) == 0 then 1 else 0)
    decreases m - n
  {
    if n < m {
      ZonesForNext(ppz, n + 1, m);
    } else {
      NewSlotsCount(ppz, m);
      assert ZonesNeeded(ppz, m + 1, m + 1) == 0;
    }
  }

  lemma NewSlotsCount(ppz: nat, n: nat)
    requires ppz > 0
    ensures |NewSlots(ppz, n)| == 1 + (if n == 7 then 1 else 0) + (if n == 7 + ppz then 1 else 0)
              + (if n >= 7 + ppz && Rest(n - 7 - ppz, ppz) == 0 then 1 else 0)
  {
    var a, b := if n == 7 then {Ind} else {}, if n == 7 + ppz then {DInd} else {};
    var c: set<Slot> := if n >= 7 + ppz && Rest(n - 7 - ppz, ppz) == 0 then {DIndK(Quot(n - 7 - ppz, ppz))} else {};
    assert NewSlots(ppz, n) == {Data(n)} + a + b + c;
    assert {Data(n)} !! a && ({Data(n)} + a) !! b && ({Data(n)} + a + b) !! c;
  }

  /** Rewriting part of data zone k of file i moves no pointer and changes no other zone of the file. */
  lemma OneZoneOnly(bs: nat, zs: Zones, zs': Zones, files: Files, owner: Owners, i: nat, k: nat, block: seq<byte>)
    requires bs >= 4 && Owned(zs, bs / 4, files, owner) && i in files && files[i].inode.Wf() && k < files[i].count
    requires var z := SlotZone(zs, files[i].inode, bs / 4, Data(k)); z in zs && zs' == zs[z := block]
    ensures Owned(zs', bs / 4, files, owner) && TouchesOnly(zs, zs', owner, i)
    ensures Present(zs, files[i].inode, bs / 4, files[i].count)
    ensures forall m :: 0 <= m < files[i].count ==>
              SlotZone(zs', files[i].inode, bs / 4, Data(m)) == SlotZone(zs, files[i].inode, bs / 4, Data(m))
    ensures forall m :: 0 <= m < files[i].count && m != k ==>
              SlotZone(zs, files[i].inode, bs / 4, Data(m)) != SlotZone(zs, files[i].inode, bs / 4, Data(k))
  {
    hide SlotZone;
    var ppz, f, n := bs / 4, files[i].inode, files[i].count;
    OwnedFile(zs, ppz, files, owner, i);
    assert Live(ppz, n, Data(k));
    WriteKeepsOwned(zs, zs', ppz, files, owner, i);
    forall m | 0 <= m < n
      ensures SlotZone(zs', f, ppz, Data(m)) == SlotZone(zs, f, ppz, Data(m))
      ensures m != k ==> SlotZone(zs, f, ppz, Data(m)) != SlotZone(zs, f, ppz, Data(k))
    {
      assert IsSlot(ppz, Data(m)) && Live(ppz, n, Data(m));
    }
  }

  /** Writing b into the last data zone patches the content there. */
  lemma ContentPatched(bs: nat, zs: Zones, zs': Zones, files: Files, owner: Owners, i: nat, off: nat, b: seq<byte>)
    requires bs >= 4 && Sized(zs, bs) && Owned(zs, bs / 4, files, owner) && i in files && files[i].inode.Wf()
    requires files[i].count > 0 && off + |b| <= bs
    requires var z := SlotZone(zs, files[i].inode, bs / 4, Data(files[i].count - 1));
             z in zs && zs' == zs[z := Splice(zs[z], off, b)]
    ensures Owned(zs', bs / 4, files, owner) && TouchesOnly(zs, zs', owner, i)
    ensures var n, f := files[i].count, files[i].inode;
            |Content(zs, f, bs / 4, n)| == Times(n, bs) && Times(n - 1, bs) + off + |b| <= Times(n, bs)
            && Content(zs', f, bs / 4, n) == Splice(Content(zs, f, bs / 4, n), Times(n - 1, bs) + off, b)
  {
    hide Owned, SlotZone, TouchesOnly, Content, Splice, Times, Present;
    var ppz, f, n := bs / 4, files[i].inode, files[i].count;
    var z := SlotZone(zs, f, ppz, Data(n - 1));
    OneZoneOnly(bs, zs, zs', files, owner, i, n - 1, Splice(zs[z], off, b));
    ContentChanged(bs, zs, zs', f, n, Splice(zs[z], off, b));
    SpliceEnd(Content(zs, f, ppz, n - 1), zs[z], off, b);
  }

  lemma ContentChanged(bs: nat, zs: Zones, zs': Zones, f: Inode, n: nat, block: seq<byte>)
    requires bs >= 4 && f.Wf() && n > 0 && Sized(zs, bs) && Present(zs, f, bs / 4, n)
    requires zs' == zs[SlotZone(zs, f, bs / 4, Data(n - 1)) := block]
    requires forall k :: 0 <= k < n ==> SlotZone(zs', f, bs / 4, Data(k)) == SlotZone(zs, f, bs / 4, Data(k))
    requires forall k :: 0 <= k < n - 1 ==>
               SlotZone(zs, f, bs / 4, Data(k)) != SlotZone(zs, f, bs / 4, Data(n - 1))
    ensures |Content(zs, f, bs / 4, n)| == Times(n, bs) && |Content(zs, f, bs / 4, n - 1)| == Times(n - 1, bs)
    ensures Times(n, bs) == Times(n - 1, bs) + bs
    ensures Content(zs, f, bs / 4, n) == Content(zs, f, bs / 4, n - 1) + zs[SlotZone(zs, f, bs / 4, Data(n - 1))]
    ensures Content(zs', f, bs / 4, n) == Content(zs, f, bs / 4, n - 1) + block
  {
    hide SlotZone;
    ContentFrame(zs, f, zs', f, bs / 4, n - 1);
    ContentLength(zs, f, bs, n);
    ContentLength(zs, f, bs, n - 1);
  }

  lemma SpliceEnd<T>(a: seq<T>, c: seq<T>, off: nat, b: seq<T>)
    requires off + |b| <= |c|
    ensures Splice(a + c, |a| + off, b) == a + Splice(c, off, b)
  {
  }

  /** Writing at the end of a file whose spare bytes are zero: the file gets longer by b and the rest stays zero. */
  lemma WrittenAtEnd(content: seq<byte>, size: nat, b: seq<byte>)
    requires size + |b| <= |content| && ZeroTail(content, size)
    ensures ZeroTail(Splice(content, size, b), size + |b|)
    ensures Take(Splice(content, size, b), size + |b|) == Take(content, size) + b
  {
  }

  /** The contents of every file but i are as in zs0. */
  ghost predicate OthersSame(bs: nat, zs0: Zones, files0: Files, i: nat, zs: Zones)
    requires bs >= 4
  {
    forall j :: j in files0 && j != i && files0[j].inode.Wf() ==>
      Content(zs, files0[j].inode, bs / 4, files0[j].count) == Content(zs0, files0[j].inode, bs / 4, files0[j].count)
  }

  lemma OthersStay(bs: nat, zs0: Zones, files0: Files, i: nat, zs: Zones, files: Files, owner: Owners, zs': Zones)
    requires bs >= 4 && OthersSame(bs, zs0, files0, i, zs) && Owned(zs, bs / 4, files, owner)
    requires TouchesOnly(zs, zs', owner, i) && files.Keys == files0.Keys
    requires forall j :: j in files0 && j != i ==> files[j] == files0[j]
    ensures OthersSame(bs, zs0, files0, i, zs')
  {
    forall j | j in files0 && j != i && files0[j].inode.Wf()
      ensures Content(zs', files0[j].inode, bs / 4, files0[j].count) == Content(zs0, files0[j].inode, bs / 4, files0[j].count)
    {
      OtherFileSame(zs, zs', bs / 4, files, owner, i, j);
    }
  }

  /**
   * How far an append has got: file i says its old bytes and the first `written` bytes of the buffer, its spare
   * bytes are zero, and nothing else has changed but zones taken from the free ones.
   */
  ghost predicate Progress(sb: Superblock, bs: nat, v0: Volume, owner0: Owners, i: nat, text: seq<byte>,
                           v: Volume, owner: Owners, f: Inode, n: nat)
  {
    && bs >= 64 && i in FilesOf(v0, bs) && f.Wf() && f.size <= Times(n, bs)
    && Coherent(sb, bs, v, FilesOf(v0, bs)[i := File(f, n)], owner)
    && v.inodes == v0.inodes && v.inodeMap == v0.inodeMap
    && OthersSame(bs, v0.zones, FilesOf(v0, bs), i, v.zones)
    && f == v0.inodes[i].(size := f.size, zones := f.zones)
    && Take(Content(v.zones, f, bs / 4, n), f.size) == text && |text| == f.size
    && ZeroTail(Content(v.zones, f, bs / 4, n), f.size)
    && owner0.Keys <= owner.Keys && (forall z :: z in owner0 ==> owner[z] == owner0[z])
    && (forall z :: z in owner && z !in owner0 ==> owner[z].0 == i && z !in v0.zoneMap)
    && v.zoneMap == v0.zoneMap + owner.Keys
  }

  lemma ProgressStart(sb: Superblock, bs: nat, v0: Volume, owner0: Owners, i: nat)
    requires Consistent(sb, bs, v0, owner0) && i in FilesOf(v0, bs) && v0.inodes[i].Wf()
    ensures var f := v0.inodes[i];
            Progress(sb, bs, v0, owner0, i, FileBytes(v0.zones, f, bs), v0, owner0, f, Count(f.size, bs))
  {
    var f, n := v0.inodes[i], Count(v0.inodes[i].size, bs);
    CountBounds(f.size, bs);
    OwnedFile(v0.zones, bs / 4, FilesOf(v0, bs), owner0, i);
    ContentLength(v0.zones, f, bs, n);
    assert FilesOf(v0, bs)[i := File(f, n)] == FilesOf(v0, bs);
    assert v0.zoneMap == v0.zoneMap + owner0.Keys;
  }

  lemma ProgressGrow(sb: Superblock, bs: nat, v0: Volume, owner0: Owners, i: nat, text: seq<byte>,
                     v: Volume, owner: Owners, f: Inode, n: nat, v': Volume, f': Inode, given: map<Slot, nat>)
    requires Progress(sb, bs, v0, owner0, i, text, v, owner, f, n)
    requires f'.Wf() && f' == f.(zones := f'.zones) && Distinct(given)
    requires Coherent(sb, bs, v', FilesOf(v0, bs)[i := File(f, n)][i := File(f', n + 1)], owner + OwnersOf(i, given))
    requires TouchesOnly(v.zones, v'.zones, owner, i) && given.Values !! v.zoneMap
    requires v' == v.(zones := v'.zones, zoneMap := v.zoneMap + given.Values)
    requires Content(v'.zones, f', bs / 4, n + 1) == Content(v.zones, f, bs / 4, n) + Zeros(bs)
    ensures Progress(sb, bs, v0, owner0, i, text, v', owner + OwnersOf(i, given), f', n + 1)
  {
    hide Owned, SlotZone, TouchesOnly, Content, OthersSame;
    var files0: Files := FilesOf(v0, bs);
    assert files0[i := File(f, n)][i := File(f', n + 1)] == files0[i := File(f', n + 1)];
    OthersStay(bs, v0.zones, files0, i, v.zones, files0[i := File(f, n)], owner, v'.zones);
    OwnersOfGiven(i, given);
    ZerosAtEnd(Content(v.zones, f, bs / 4, n), f.size, bs);
  }

  lemma OwnersOfGiven(i: nat, given: map<Slot, nat>)
    ensures OwnersOf(i, given).Keys == given.Values
    ensures forall z :: z in OwnersOf(i, given) ==> OwnersOf(i, given)[z].0 == i
  {
  }

  lemma ZerosAtEnd(content: seq<byte>, size: nat, n: nat)
    requires size <= |content| && ZeroTail(content, size)
    ensures ZeroTail(content + Zeros(n), size) && Take(content + Zeros(n), size) == Take(content, size)
  {
  }

  lemma ProgressWrite(sb: Superblock, bs: nat, v0: Volume, owner0: Owners, i: nat, text: seq<byte>,
                      v: Volume, owner: Owners, f: Inode, n: nat, off: nat, b: seq<byte>, v': Volume)
    requires Progress(sb, bs, v0, owner0, i, text, v, owner, f, n)
    requires n > 0 && f.size == Times(n - 1, bs) + off && off + |b| <= bs && f.size + |b| < 0x1_0000_0000
    requires var z := SlotZone(v.zones, f, bs / 4, Data(n - 1));
             z in v.zones && v' == v.(zones := v.zones[z := Splice(v.zones[z], off, b)])
    ensures Progress(sb, bs, v0, owner0, i, text + b, v', owner, f.(size := f.size + |b|), n)
  {
    hide Owned, SlotZone, TouchesOnly, OthersSame, ZeroTail;
    var files0: Files := FilesOf(v0, bs);
    var files: Files := files0[i := File(f, n)];
    var ppz, f' := bs / 4, f.(size := f.size + |b|);
    ContentPatched(bs, v.zones, v'.zones, files, owner, i, off, b);
    WrittenAtEnd(Content(v.zones, f, ppz, n), f.size, b);
    OthersStay(bs, v0.zones, files0, i, v.zones, files, owner, v'.zones);
    SizeIsNoPointer(v'.zones, ppz, files, owner, i, f');
    ContentFrame(v'.zones, f, v'.zones, f', ppz, n);
    assert files[i := File(f', n)] == files0[i := File(f', n)];
  }

  /** Ownership and contents depend on a file's pointers, not on its size. */
  lemma SizeIsNoPointer(zs: Zones, ppz: nat, files: Files, owner: Owners, i: nat, f': Inode)
    requires ppz > 0 && Owned(zs, ppz, files, owner) && i in files && f'.Wf() && f'.zones == files[i].inode.zones
    ensures Owned(zs, ppz, files[i := File(f', files[i].count)], owner)
    ensures forall s :: SlotZone(zs, f', ppz, s) == SlotZone(zs, files[i].inode, ppz, s)
  {
    var files' := files[i := File(f', files[i].count)];
    assert Dense(zs, files[i].inode, ppz, files[i].count);
    forall s ensures SlotZone(zs, f', ppz, s) == SlotZone(zs, files[i].inode, ppz, s) { }
    forall j: nat, s: Slot, z: nat ensures Holds(zs, ppz, files', j, s, z) <==> Holds(zs, ppz, files, j, s, z) { }
  }

  /** An append that is through, once the inode is written back. */
  lemma ProgressDone(sb: Superblock, bs: nat, v0: Volume, owner0: Owners, i: nat, text: seq<byte>,
                     v: Volume, owner: Owners, f: Inode, n: nat)
    requires Consistent(sb, bs, v0, owner0) && Progress(sb, bs, v0, owner0, i, text, v, owner, f, n)
    requires n == Count(f.size, bs)
    ensures var v' := v.(inodes := v.inodes[i := f]);
            Consistent(sb, bs, v', owner) && FilesOf(v', bs) == FilesOf(v0, bs)[i := File(f, n)]
            && FileBytes(v'.zones, f, bs) == text
            && forall j :: j in FilesOf(v0, bs) && j != i && v0.inodes[j].Wf() ==>
                 FileBytes(v'.zones, v0.inodes[j], bs) == FileBytes(v0.zones, v0.inodes[j], bs)
  {
    var v' := v.(inodes := v.inodes[i := f]);
    assert FilesOf(v', bs) == FilesOf(v0, bs)[i := File(f, n)];
    forall j | j in FilesOf(v', bs) && FilesOf(v', bs)[j].inode.Wf()
      ensures ZeroTail(Content(v'.zones, FilesOf(v', bs)[j].inode, bs / 4, FilesOf(v', bs)[j].count), FilesOf(v', bs)[j].inode.size)
    {
      if j != i { assert FilesOf(v', bs)[j] == FilesOf(v0, bs)[j]; }
    }
  }

  /** An append fits: no size overflow, no triply indirect zone, and enough free zones ahead of the cursor, `spare` left. */
  ghost predicate Room(bs: nat, v: Volume, free: set<nat>, i: nat, size: nat, spare: nat := 0)
    requires bs >= 4 && i in v.inodes
  {
    && v.inodes[i].size + size < 0x1_0000_0000
    && Count(v.inodes[i].size + size, bs) <= MaxZones(bs / 4)
    && |free| >= ZonesNeeded(bs / 4, Count(v.inodes[i].size, bs), Count(v.inodes[i].size + size, bs)) + spare
  }

  lemma CountMono(a: nat, b: nat, bs: nat)
    requires bs > 0 && a <= b
    ensures Count(a, bs) <= Count(b, bs)
  {
    CountBounds(a, bs);
    CountBounds(b, bs);
    assert Times(Count(b, bs) + 1, bs) == Times(Count(b, bs), bs) + bs;
    TimesOrder(Count(a, bs), Count(b, bs) + 1, bs);
  }

  /** Filling up the last block keeps the number of zones; starting a new one adds exactly one. */
  lemma CountAfterFill(size: nat, len: nat, bs: nat)
    requires bs > 0 && size > 0 && size + len <= Times(Count(size, bs), bs)
    ensures Count(size + len, bs) == Count(size, bs)
  {
    CountBounds(size, bs);
    CountOf(size + len, bs, Count(size, bs));
  }

  lemma CountAfterBlock(size: nat, len: nat, bs: nat, n: nat)
    requires bs > 0 && size == Times(n, bs) && 0 < len <= bs
    ensures Count(size + len, bs) == n + 1
  {
    CountOf(size + len, bs, n + 1);
  }

  /** minix3_append_to_file; `spare` is how many more free zones the caller will need afterwards. */
  method AppendToFile(fs: FileStore, i: nat, buffer: array<byte>, size0: nat, ghost spare: nat := 0) returns (code: int)
    requires fs.Mounted() && Consistent(fs.sb, fs.bs, fs.Vol(), fs.owner)
    requires i in FilesOf(fs.Vol(), fs.bs) && buffer != fs.dev.data && size0 <= buffer.Length
    requires Room(fs.bs, fs.Vol(), FreeAhead(fs.sb, fs.Vol().zoneMap, fs.zoneCursor), i, size0, spare)
    modifies fs.dev.data, fs`zoneCursor, fs`owner
    ensures code == 0 && fs.Mounted() && Consistent(fs.sb, fs.bs, fs.Vol(), fs.owner)
    // the file is its old bytes followed by the buffer
    ensures i in fs.Vol().inodes && fs.Vol().inodes[i].Wf()
    ensures FileBytes(fs.Vol().zones, fs.Vol().inodes[i], fs.bs)
         == FileBytes(old(fs.Vol()).zones, old(fs.Vol()).inodes[i], fs.bs) + buffer[..size0]
    ensures fs.Vol().inodes[i] == old(fs.Vol()).inodes[i].(size := old(fs.Vol()).inodes[i].size + size0,
                                                           zones := fs.Vol().inodes[i].zones)
    // every other file is as it was
    ensures fs.Vol().inodes == old(fs.Vol()).inodes[i := fs.Vol().inodes[i]]
    ensures fs.Vol().inodeMap == old(fs.Vol()).inodeMap
    ensures forall j :: j in FilesOf(old(fs.Vol()), fs.bs) && j != i ==>
      FileBytes(fs.Vol().zones, old(fs.Vol()).inodes[j], fs.bs) == FileBytes(old(fs.Vol()).zones, old(fs.Vol()).inodes[j], fs.bs)
    // the zones newly marked are exactly the zones file i now owns and did not before
    ensures forall z :: z in old(fs.owner) ==> z in fs.owner && fs.owner[z] == old(fs.owner)[z]
    ensures forall z :: z in fs.owner && z !in old(fs.owner) ==> fs.owner[z].0 == i && z !in old(fs.Vol()).zoneMap
    ensures fs.Vol().zoneMap == old(fs.Vol()).zoneMap + fs.owner.Keys
    ensures |FreeAhead(fs.sb, fs.Vol().zoneMap, fs.zoneCursor)| >= spare
  {
    hide Fits, Meaning, Coherent, Sound, SlotZone, Content, FreeAhead, Count, NewSlots, TouchesOnly, Progress,
      Consistent, Times, Remaining, MaxZones, ZonesNeeded, Dense, Unshared, FileBytes;
    ghost var v0, owner0 := fs.Vol(), fs.owner;
    ConsistentFacts(fs.sb, fs.bs, v0, owner0, i);
    var f0 := fs.GetInode(i);
    ghost var n0 := Count(f0.size, fs.bs);
    ghost var end := Count(f0.size + size0, fs.bs);
    ProgressStart(fs.sb, fs.bs, v0, owner0, i);
    CountMono(f0.size, f0.size + size0, fs.bs);
    var f, from := FillLastBlock(fs, i, f0, buffer, size0);
    ghost var n;
    f, n := AddBlocks(fs, i, f, buffer, from, size0, n0, end, v0, owner0, FileBytes(v0.zones, f0, fs.bs), spare);
    ProgressDone(fs.sb, fs.bs, v0, owner0, i, FileBytes(v0.zones, f0, fs.bs) + buffer[..size0], fs.Vol(), fs.owner, f, n);
    ProgressFacts(fs.sb, fs.bs, v0, owner0, i, FileBytes(v0.zones, f0, fs.bs) + buffer[..size0], fs.Vol(), fs.owner, f, n);
    fs.PutInode(i, f);
    code := 0;
  }

  /** Write to the rest of the last block; from is how much of the buffer went there. */
  method FillLastBlock(fs: FileStore, ghost i: nat, f0: Inode, buffer: array<byte>, size0: nat) returns (f: Inode, from: nat)
    requires fs.Mounted() && Consistent(fs.sb, fs.bs, fs.Vol(), fs.owner)
    requires i in FilesOf(fs.Vol(), fs.bs) && f0 == fs.Vol().inodes[i] && f0.Wf() && fs.bs >= 4
    requires buffer != fs.dev.data && size0 <= buffer.Length && f0.size + size0 < 0x1_0000_0000
    modifies fs.dev.data, fs`zoneCursor
    ensures fs.Mounted() && from <= size0 && f.Wf() && f.size == f0.size + from
    ensures Count(f.size, fs.bs) == Count(f0.size, fs.bs)
    ensures Progress(fs.sb, fs.bs, old(fs.Vol()), fs.owner, i, FileBytes(old(fs.Vol()).zones, f0, fs.bs) + buffer[..from],
                     fs.Vol(), fs.owner, f, Count(f.size, fs.bs))
    ensures from < size0 ==> f.size == Times(Count(f.size, fs.bs), fs.bs)
    ensures FreeAhead(fs.sb, fs.Vol().zoneMap, fs.zoneCursor) == old(FreeAhead(fs.sb, fs.Vol().zoneMap, fs.zoneCursor))
  {
    hide Fits, Meaning, Coherent, Sound, SlotZone, Content, FreeAhead, Count, Progress, Consistent, Times, Remaining,
      Dense, Unshared, FileBytes;
    ghost var v0, n := fs.Vol(), Count(f0.size, fs.bs);
    ghost var text := FileBytes(v0.zones, f0, fs.bs);
    ConsistentFacts(fs.sb, fs.bs, v0, fs.owner, i);
    ProgressStart(fs.sb, fs.bs, v0, fs.owner, i);
    var last := GetLastFileZone(fs, f0, n);
    var zone, remainingFile := Gzbars(fs, f0, last, n);
    LastBlock(fs.sb, fs.bs, v0, f0, n);
    f, from := f0, 0;
    assert text + buffer[..0] == text;
    if zone != 0 {
      var remainingBlock := fs.bs - remainingFile;
      var writeSize := if remainingBlock < size0 then remainingBlock else size0;
      CountAfterFill(f0.size, writeSize, fs.bs);
      f := WriteAtEnd(fs, i, f0, zone, remainingFile, buffer, 0, writeSize, n, v0, fs.owner, text);
      from := writeSize;
    } else {
      EmptyIsFull(fs.bs);
    }
  }

  lemma EmptyIsFull(bs: nat)
    ensures bs > 0 ==> Times(0, bs) == 0 && Count(0, bs) == 0
  {
    if bs > 0 { CountBounds(0, bs); }
  }

  /** Add more blocks as needed. */
  method AddBlocks(fs: FileStore, ghost i: nat, f0: Inode, buffer: array<byte>, from0: nat, size0: nat, ghost n0: nat,
                   ghost end: nat, ghost v0: Volume, ghost owner0: Owners, ghost text0: seq<byte>, ghost spare: nat)
    returns (f: Inode, ghost n: nat)
    requires fs.Mounted() && fs.bs >= 4 && f0.Wf() && n0 == Count(f0.size, fs.bs)
    requires buffer != fs.dev.data && from0 <= size0 <= buffer.Length && f0.size + (size0 - from0) < 0x1_0000_0000
    requires Progress(fs.sb, fs.bs, v0, owner0, i, text0 + buffer[..from0], fs.Vol(), fs.owner, f0, n0)
    requires n0 <= end == Count(f0.size + (size0 - from0), fs.bs) <= MaxZones(fs.bs / 4)
    requires from0 < size0 ==> f0.size == Times(n0, fs.bs)
    requires |FreeAhead(fs.sb, fs.Vol().zoneMap, fs.zoneCursor)| >= ZonesNeeded(fs.bs / 4, n0, end) + spare
    modifies fs.dev.data, fs`zoneCursor, fs`owner
    ensures fs.Mounted() && f.Wf() && f.size == f0.size + (size0 - from0) && n == Count(f.size, fs.bs)
    ensures Progress(fs.sb, fs.bs, v0, owner0, i, text0 + buffer[..size0], fs.Vol(), fs.owner, f, n)
    ensures |FreeAhead(fs.sb, fs.Vol().zoneMap, fs.zoneCursor)| >= spare
  {
    hide Fits, Meaning, FreeAhead, Count, NewSlots, Progress, Times, MaxZones, ZonesNeeded, SlotZone;
    var rest: nat, from: nat := size0 - from0, from0;
    f, n := f0, n0;
    while rest != 0
      invariant rest + from == size0 && fs.Mounted() && f.Wf() && n == Count(f.size, fs.bs) <= end
      invariant Progress(fs.sb, fs.bs, v0, owner0, i, text0 + buffer[..from], fs.Vol(), fs.owner, f, n)
      invariant f.size + rest == f0.size + (size0 - from0)
      invariant rest > 0 ==> f.size == Times(n, fs.bs)
      invariant |FreeAhead(fs.sb, fs.Vol().zoneMap, fs.zoneCursor)| >= ZonesNeeded(fs.bs / 4, n, end) + spare
    {
      var zone;
      NeedsAnother(f.size, rest, fs.bs, n);
      ZonesNeededNext(fs.bs / 4, n, end);
      zone, f := GrowForAppend(fs, i, f, n, v0, owner0, text0 + buffer[..from], ZonesNeeded(fs.bs / 4, n + 1, end) + spare);
      var writeSize := if fs.bs < rest then fs.bs else rest;
      CountAfterBlock(f.size, writeSize, fs.bs, n);
      NextMultiple(n, fs.bs);
      ghost var text := text0 + buffer[..from];
      f := WriteAtEnd(fs, i, f, zone, 0, buffer, from, writeSize, n + 1, v0, owner0, text);
      assert text + buffer[from..from + writeSize] == text0 + buffer[..from + writeSize];
      rest, from, n := rest - writeSize, from + writeSize, n + 1;
    }
  }

  lemma ConsistentFacts(sb: Superblock, bs: nat, v: Volume, owner: Owners, i: nat)
    requires Consistent(sb, bs, v, owner) && i in FilesOf(v, bs) && v.inodes[i].Wf()
    ensures bs >= 64 && bs % 64 == 0 && Sound(sb, bs, v, v.inodes[i], Count(v.inodes[i].size, bs))
  {
    CoherentSound(sb, bs, v, FilesOf(v, bs), owner, i);
  }

  /** The last block of a file: where it is, and how much of it is used. */
  lemma LastBlock(sb: Superblock, bs: nat, v: Volume, f: Inode, n: nat)
    requires Sound(sb, bs, v, f, n) && n == Count(f.size, bs)
    ensures f.Wf() && (n == 0 ==> f.zones[0] == 0 && f.size == 0)
    ensures n > 0 ==>
      && SlotZone(v.zones, f, bs / 4, Data(n - 1)) != 0 && InZones(sb, SlotZone(v.zones, f, bs / 4, Data(n - 1)))
      && f.size > 0 && Remaining(f.size, bs, n - 1) <= bs
      && f.size == Times(n - 1, bs) + Remaining(f.size, bs, n - 1)
      && Times(n, bs) == Times(n - 1, bs) + bs
  {
    CountBounds(f.size, bs);
    if n > 0 {
      assert IsSlot(bs / 4, Data(n - 1)) && Live(bs / 4, n, Data(n - 1));
      LastZoneAt(f.size, bs, n - 1);
    } else {
      assert IsSlot(bs / 4, Data(0)) && SlotZone(v.zones, f, bs / 4, Data(0)) == f.zones[0];
    }
  }

  lemma NextMultiple(q: nat, n: nat)
    ensures Times(q + 1, n) == Times(q, n) + n
  {
  }

  /** Something left to write at the end of a full block needs another zone. */
  lemma NeedsAnother(size: nat, rest: nat, bs: nat, n: nat)
    requires bs > 0 && rest > 0 && size == Times(n, bs)
    ensures n < Count(size + rest, bs)
  {
    CountBounds(size + rest, bs);
    TimesOrder(n, Count(size + rest, bs), bs);
  }

  lemma ZonesNeededNext(ppz: nat, n: nat, m: nat)
    requires ppz > 0 && n < m
    ensures ZonesNeeded(ppz, n, m) == |NewSlots(ppz, n)| + ZonesNeeded(ppz, n + 1, m)
  {
  }

  lemma ProgressFacts(sb: Superblock, bs: nat, v0: Volume, owner0: Owners, i: nat, text: seq<byte>,
                      v: Volume, owner: Owners, f: Inode, n: nat)
    requires Progress(sb, bs, v0, owner0, i, text, v, owner, f, n)
    ensures bs >= 64 && i in FilesOf(v0, bs) && f.Wf() && v.inodes == v0.inodes && v.inodeMap == v0.inodeMap
    ensures f == v0.inodes[i].(size := f.size, zones := f.zones)
    ensures forall z :: z in owner0 ==> z in owner && owner[z] == owner0[z]
    ensures forall z :: z in owner && z !in owner0 ==> owner[z].0 == i && z !in v0.zoneMap
    ensures v.zoneMap == v0.zoneMap + owner.Keys
    ensures Coherent(sb, bs, v, FilesOf(v0, bs)[i := File(f, n)], owner)
  {
  }

  lemma ProgressCoherent(sb: Superblock, bs: nat, v0: Volume, owner0: Owners, i: nat, text: seq<byte>,
                         v: Volume, owner: Owners, f: Inode, n: nat)
    requires Progress(sb, bs, v0, owner0, i, text, v, owner, f, n) && bs > 0
    ensures i in FilesOf(v0, bs) && f.Wf() && Coherent(sb, bs, v, FilesOf(v0, bs)[i := File(f, n)], owner)
  {
  }

  lemma ZoneIsReal(sb: Superblock, bs: nat, v: Volume, zone: nat)
    requires InZones(sb, zone) && forall z :: z in v.zones <==> InZones(sb, z)
    ensures zone in v.zones
  {
  }

  /** Write part of the buffer after the last byte of the file, inside its last block. */
  method WriteAtEnd(fs: FileStore, ghost i: nat, f0: Inode, zone: nat, off: nat, buffer: array<byte>, from: nat, len: nat,
                    ghost n: nat, ghost v0: Volume, ghost owner0: Owners, ghost text: seq<byte>)
    returns (f: Inode)
    requires fs.Mounted() && Progress(fs.sb, fs.bs, v0, owner0, i, text, fs.Vol(), fs.owner, f0, n) && f0.Wf() && fs.bs >= 4
    requires n > 0 && f0.size == Times(n - 1, fs.bs) + off && off + len <= fs.bs && f0.size + len < 0x1_0000_0000
    requires InZones(fs.sb, zone) && zone == SlotZone(fs.Vol().zones, f0, fs.bs / 4, Data(n - 1))
    requires buffer != fs.dev.data && from + len <= buffer.Length
    modifies fs.dev.data
    ensures fs.Mounted() && f == f0.(size := f.size) && f.size as int == f0.size as int + len
    ensures Progress(fs.sb, fs.bs, v0, owner0, i, text + buffer[from..from + len], fs.Vol(), fs.owner, f, n)
    ensures fs.Vol().zoneMap == old(fs.Vol()).zoneMap
  {
    hide *;
    ghost var v := fs.Vol();
    ZoneIsReal(fs.sb, fs.bs, v, zone);
    fs.WriteInZone(buffer, from, zone, off, len);
    ProgressWrite(fs.sb, fs.bs, v0, owner0, i, text, v, fs.owner, f0, n, off, buffer[from..from + len], fs.Vol());
    f := f0.(size := f0.size + len);
  }

  /** One more zone for a file whose blocks are all full. */
  method GrowForAppend(fs: FileStore, ghost i: nat, f0: Inode, ghost n: nat, ghost v0: Volume, ghost owner0: Owners,
                       ghost text: seq<byte>, ghost spare: nat)
    returns (zone: nat, f: Inode)
    requires fs.Mounted() && Progress(fs.sb, fs.bs, v0, owner0, i, text, fs.Vol(), fs.owner, f0, n) && fs.bs >= 4
    requires n == Count(f0.size, fs.bs) < MaxZones(fs.bs / 4)
    requires |FreeAhead(fs.sb, fs.Vol().zoneMap, fs.zoneCursor)| >= |NewSlots(fs.bs / 4, n)| + spare
    modifies fs.dev.data, fs`zoneCursor, fs`owner
    ensures fs.Mounted() && f.Wf() && f == f0.(zones := f.zones)
    ensures Progress(fs.sb, fs.bs, v0, owner0, i, text, fs.Vol(), fs.owner, f, n + 1)
    ensures InZones(fs.sb, zone) && zone == SlotZone(fs.Vol().zones, f, fs.bs / 4, Data(n))
    ensures |FreeAhead(fs.sb, fs.Vol().zoneMap, fs.zoneCursor)| >= spare
  {
    hide *;
    ghost var v, owner, free := fs.Vol(), fs.owner, FreeAhead(fs.sb, fs.Vol().zoneMap, fs.zoneCursor);
    ProgressCoherent(fs.sb, fs.bs, v0, owner0, i, text, v, owner, f0, n);
    ghost var given;
    ghost var files: Files := FilesOf(v0, fs.bs)[i := File(f0, n)];
    zone, f, given := AppendZone(fs, f0, files, i);
    GrewForAppend(fs.sb, fs.bs, v0, owner0, i, text, v, owner, f0, n, fs.Vol(), f, given, free, fs.zoneCursor, old(fs.zoneCursor));
  }

  lemma GrewForAppend(sb: Superblock, bs: nat, v0: Volume, owner0: Owners, i: nat, text: seq<byte>,
                      v: Volume, owner: Owners, f: Inode, n: nat, v': Volume, f': Inode, given: map<Slot, nat>,
                      free: set<nat>, cursor: nat, cursor0: nat)
    requires Progress(sb, bs, v0, owner0, i, text, v, owner, f, n)
    requires f'.Wf() && f' == f.(zones := f'.zones) && Distinct(given) && given.Values <= free
    requires Coherent(sb, bs, v', FilesOf(v0, bs)[i := File(f, n)][i := File(f', n + 1)], owner + OwnersOf(i, given))
    requires TouchesOnly(v.zones, v'.zones, owner, i) && free == FreeAhead(sb, v.zoneMap, cursor0)
    requires v' == v.(zones := v'.zones, zoneMap := v.zoneMap + given.Values)
    requires Content(v'.zones, f', bs / 4, n + 1) == Content(v.zones, f, bs / 4, n) + Zeros(bs)
    ensures Progress(sb, bs, v0, owner0, i, text, v', owner + OwnersOf(i, given), f', n + 1)
    ensures bs >= 4 && InZones(sb, SlotZone(v'.zones, f', bs / 4, Data(n)))
    ensures |free - given.Values| >= |free| - |given.Keys|
  {
    hide Progress, Coherent, TouchesOnly, SlotZone, Content, OwnersOf, Distinct, FilesOf, FreeAhead;
    FreeAreFree(sb, v.zoneMap, cursor0);
    ProgressGrow(sb, bs, v0, owner0, i, text, v, owner, f, n, v', f', given);
    AtMostAsMany(free, given);
    NewZoneIsReal(sb, bs, v0, owner0, i, text, v', owner + OwnersOf(i, given), f', n + 1);
  }

  /** Giving out zones for |given| slots takes at most that many from the free ones. */
  lemma AtMostAsMany(free: set<nat>, given: map<Slot, nat>)
    requires given.Values <= free
    ensures |free - given.Values| >= |free| - |given.Keys|
    decreases given.Keys
  {
    if given.Keys == {} {
      assert given.Values == {};
      assert free - given.Values == free;
    } else {
      var s :| s in given;
      var less := given - {s};
      assert given.Values == less.Values + {given[s]} by {
        forall z | z in given.Values ensures z in less.Values + {given[s]} {
          var s' :| s' in given && given[s'] == z;
          if s' != s { assert s' in less && less[s'] == z; }
        }
      }
      AtMostAsMany(free, less);
      assert free - given.Values == (free - less.Values) - {given[s]};
    }
  }

  lemma NewZoneIsReal(sb: Superblock, bs: nat, v0: Volume, owner0: Owners, i: nat, text: seq<byte>,
                      v: Volume, owner: Owners, f: Inode, n: nat)
    requires Progress(sb, bs, v0, owner0, i, text, v, owner, f, n) && n > 0
    ensures bs >= 4 && f.Wf() && InZones(sb, SlotZone(v.zones, f, bs / 4, Data(n - 1)))
  {
    CoherentSound(sb, bs, v, FilesOf(v0, bs)[i := File(f, n)], owner, i);
    assert Live(bs / 4, n, Data(n - 1));
  }
}
