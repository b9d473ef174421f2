/**
 * The zone walker (minix3_zone_walker): one walk over direct, indirect and doubly indirect pointers that either
 * reads the zone at an index or hangs a new zone there, allocating pointer blocks on the way.
 */
module Minix3Walker {
  import opened Bytes
  import opened Arith
  import opened Minix3Layout
  import opened Minix3Slots
  import opened Minix3Files
  import opened Minix3Disk

  /** Bytes of the file from zone index i on. */
  function Remaining(size: nat, bs: nat, i: nat): nat
  {
    if Times(i, bs) >= size then 0 else size - Times(i, bs)
  }

  lemma RemainingPastEnd(size: nat, bs: nat, i: nat)
    requires bs > 0 && i >= Count(size, bs)
    ensures Remaining(size, bs, i) == 0
  {
    CountBounds(size, bs);
    TimesMono(Count(size, bs), i, bs);
  }

  /** Passing a zone that is there takes one block off what remains; past the end nothing remains. */
  lemma RemainingNext(size: nat, bs: nat, i: nat)
    requires bs > 0
    ensures Remaining(size, bs, i + 1)
         == if i < Count(size, bs) then Remaining(size, bs, i) - Min(bs, Remaining(size, bs, i)) else Remaining(size, bs, i)
  {
    assert Times(i + 1, bs) == Times(i, bs) + bs;
    if i >= Count(size, bs) {
      RemainingPastEnd(size, bs, i);
    }
  }

  /** A set walk turned f0 and volume v0 into f and v; `given` are the zones now hanging in the new slots. */
  ghost predicate Hung(fs: FileStore, v0: Volume, free0: set<nat>, f0: Inode, v: Volume, free: set<nat>, f: Inode,
                       n: nat, target: nat, given: map<Slot, nat>)
    requires fs.bs >= 4 && f0.Wf()
  {
    && Grown(v0.zones, f0, v.zones, f, fs.bs / 4, n, given) && Distinct(given)
    && given[Data(n)] == target
    && (forall s :: s in given && s != Data(n) ==> given[s] in free0)
    && v == v0.(zones := v.zones, zoneMap := v0.zoneMap + given.Values)
    && free == free0 - given.Values
    && (forall z :: z in v0.zones && v.zones[z] != v0.zones[z] ==>
          (z in given.Values && z != target) || !NotPointer(v0.zones, f0, fs.bs / 4, n, z))
  }

  /** What the walker relies on: a file without holes whose pointer blocks are real, distinct zones. */
  ghost predicate Sound(sb: Superblock, bs: nat, v: Volume, f: Inode, n: nat)
  {
    && bs >= 64 && bs % 64 == 0 && sb.firstDataZone >= 1 && ZoneEnd(sb) < 0x1_0000_0000
    && Dense(v.zones, f, bs / 4, n) && Unshared(v.zones, f, bs / 4, n)
    && Sized(v.zones, bs) && (forall z :: z in v.zones <==> InZones(sb, z))
    && (forall s :: Live(bs / 4, n, s) ==> SlotZone(v.zones, f, bs / 4, s) in v.zones)
  }

  ghost predicate Walkable(fs: FileStore, f: Inode, n: nat)
    reads fs.dev.data
  {
    fs.Mounted() && Sound(fs.sb, fs.bs, fs.Vol(), f, n)
  }

  /** And, to hang a zone at the end: the zone is real and marked, and there is room for the pointer blocks. */
  ghost predicate CanHang(sb: Superblock, bs: nat, v: Volume, free: set<nat>, f: Inode, n: nat, target: nat)
    requires Sound(sb, bs, v, f, n)
  {
    && n < MaxZones(bs / 4) && InZones(sb, target) && target in v.zoneMap
    && NotPointer(v.zones, f, bs / 4, n, target) && |free| >= |NewSlots(bs / 4, n)| - 1
    && (forall z :: z in free ==> InZones(sb, z) && z !in v.zoneMap)
    && (forall s :: Live(bs / 4, n, s) ==> SlotZone(v.zones, f, bs / 4, s) in v.zoneMap)
  }

  /**
   * The loop over one block of pointers, shared by the indirect and the doubly indirect part: block z holds the
   * pointers to zones i .. i + ppz - 1 of the file.
   */
  method WalkPointerBlock(fs: FileStore, z: nat, i0: nat, index: nat, remaining0: nat, doSet: bool, target: u32,
                          ghost size: nat)
    returns (done: bool, zone: nat, i: nat, remaining: nat)
    requires fs.Mounted() && fs.bs >= 64 && fs.bs % 64 == 0 && InZones(fs.sb, z) && i0 <= index
    requires remaining0 == Remaining(size, fs.bs, i0)
    requires forall j :: 0 <= j < fs.bs / 4 && i0 + j < index ==>
               (Pointer(fs.Vol().zones, z, j) != 0 <==> i0 + j < Count(size, fs.bs))
    modifies if doSet then {fs.dev.data} else {}
    ensures fs.Mounted()
    ensures done <==> index < i0 + fs.bs / 4
    ensures i == (if done then index else i0 + fs.bs / 4) && remaining == Remaining(size, fs.bs, i)
    ensures done && !doSet ==> zone == Pointer(fs.Vol().zones, z, index - i0)
    ensures done && doSet ==> zone == target
    ensures done && doSet ==>
      fs.Vol() == old(fs.Vol()).(
        zones := old(fs.Vol()).zones[z := WithPointer(old(fs.Vol()).zones[z], index - i0, target)])
    ensures !done || !doSet ==> fs.dev.Image() == old(fs.dev.Image())
  {
    hide Fits, Meaning, Word, Count, Times, Remaining, Splice;
    var ppz := fs.bs / 4;
    ghost var block := fs.Vol().zones[z];
    assert z in fs.Vol().zones && |block| == fs.bs;
    var buffer := new byte[fs.bs](_ => 0);
    fs.ReadInZone(buffer, 0, z, 0, fs.bs);
    assert buffer[..] == block;
    i, remaining := i0, remaining0;
    zone := *;
    var j := 0;
    while j < ppz
      invariant 0 <= j <= ppz && i == i0 + j && i <= index && remaining == Remaining(size, fs.bs, i)
      invariant buffer[..] == block && fs.Mounted() && fs.dev.Image() == old(fs.dev.Image())
      invariant fresh(buffer) && buffer != fs.dev.data
    {
      if i >= index {
        if doSet {
          StorePointer(fs, buffer, z, j, target);
        }
        zone := Word(buffer[..], j);
        return true, zone, i, remaining;
      } else if Word(buffer[..], j) != 0 {
        remaining := remaining - (if fs.bs < remaining then fs.bs else remaining);
      }
      assert (Pointer(fs.Vol().zones, z, j) != 0) == (Word(block, j) != 0);
      RemainingNext(size, fs.bs, i);
      j, i := j + 1, i + 1;
    }
    return false, zone, i, remaining;
  }

  /** zones[j] = target, on the bytes of the block. */
  method PutPointer(buffer: array<byte>, j: nat, target: u32)
    requires 4 * j + 4 <= buffer.Length
    modifies buffer
    ensures buffer[..] == WithPointer(old(buffer[..]), j, target)
  {
    var b := Put32(target);
    buffer[4 * j], buffer[4 * j + 1], buffer[4 * j + 2], buffer[4 * j + 3] := b[0], b[1], b[2], b[3];
  }

  /** zones[j] = target in the buffered block z, then the block is written back. */
  method StorePointer(fs: FileStore, buffer: array<byte>, z: nat, j: nat, target: u32)
    requires fs.Mounted() && InZones(fs.sb, z) && buffer != fs.dev.data
    requires buffer[..] == fs.Vol().zones[z] && 4 * j + 4 <= fs.bs
    modifies buffer, fs.dev.data
    ensures fs.Mounted()
    ensures fs.Vol() == old(fs.Vol()).(
              zones := old(fs.Vol()).zones[z := WithPointer(old(fs.Vol()).zones[z], j, target)])
    ensures buffer[..] == WithPointer(old(buffer[..]), j, target) && Word(buffer[..], j) == target
  {
    hide Fits, Meaning, Word;
    ghost var block := fs.Vol().zones[z];
    assert z in fs.Vol().zones && |block| == fs.bs;
    PutPointer(buffer, j, target);
    fs.WriteInZone(buffer, 0, z, 0, fs.bs);
    assert Splice(block, 0, buffer[0..fs.bs]) == buffer[..];
    SetWord(block, j, target, j);
  }

  // ---- the three parts of the walk ----------------------------------------

  /** Direct pointers. */
  method WalkDirect(fs: FileStore, f0: Inode, index: nat, doSet: bool, target: u32, ghost n: nat)
    returns (done: bool, zone: nat, f: Inode, i: nat, remaining: nat)
    requires Walkable(fs, f0, n) && n == Count(f0.size, fs.bs)
    ensures f.Wf() && (done <==> index < IDZONE)
    ensures i == Min(index, IDZONE) && remaining == Remaining(f0.size, fs.bs, i)
    ensures f == if done && doSet then f0.(zones := f0.zones[index := target]) else f0
    ensures done ==> zone == f.zones[index]
  {
    hide Fits, Meaning, Count, Times, Remaining, Unshared;
    assert fs.bs >= 4;
    f, i, remaining, zone := f0, 0, f0.size, *;
    assert remaining == Remaining(f0.size, fs.bs, 0) by { RemainingAtStart(f0.size, fs.bs); }
    while i < IDZONE
      invariant 0 <= i <= IDZONE && i <= index && f == f0 && remaining == Remaining(f0.size, fs.bs, i)
    {
      if i >= index {
        if doSet {
          f := f.(zones := f.zones[i := target]);
        }
        zone := f.zones[i];
        return true, zone, f, i, remaining;
      } else if f.zones[i] != 0 {
        remaining := remaining - (if fs.bs < remaining then fs.bs else remaining);
      }
      assert IsSlot(fs.bs / 4, Data(i)) && SlotZone(fs.Vol().zones, f0, fs.bs / 4, Data(i)) == f0.zones[i];
      RemainingNext(f0.size, fs.bs, i);
      i := i + 1;
    }
    done := false;
  }

  lemma RemainingAtStart(size: nat, bs: nat)
    ensures Remaining(size, bs, 0) == size
  {
  }

  /** The pointer block of a file of n zones that holds the pointers to zones i .. i + ppz - 1. */
  lemma BlockPointers(zs: Zones, f: Inode, ppz: nat, n: nat, s: Slot, i: nat)
    requires ppz > 0 && Dense(zs, f, ppz, n)
    requires (s == Ind && i == IDZONE) || (s.DIndK? && s.k < ppz && i == DoubleIndex(ppz, s.k, 0))
    ensures forall j :: 0 <= j < ppz ==>
              Pointer(zs, SlotZone(zs, f, ppz, s), j) == SlotZone(zs, f, ppz, Data(i + j))
              && (Pointer(zs, SlotZone(zs, f, ppz, s), j) != 0 <==> i + j < n)
  {
    forall j | 0 <= j < ppz
      ensures Pointer(zs, SlotZone(zs, f, ppz, s), j) == SlotZone(zs, f, ppz, Data(i + j))
      ensures Pointer(zs, SlotZone(zs, f, ppz, s), j) != 0 <==> i + j < n
    {
      if s.DIndK? {
        DoubleAt(zs, f, ppz, s.k, j);
      }
      assert IsSlot(ppz, Data(i + j));
    }
  }

  // Each way of hanging a zone, from what it did to the volume.  v0 and free0 are the volume and the reachable
  // free zones before, when target was already taken.

  ghost predicate BeforeHang(fs: FileStore, v0: Volume, free0: set<nat>, f0: Inode, n: nat, target: nat)
    requires fs.bs >= 4
  {
    && Dense(v0.zones, f0, fs.bs / 4, n) && Unshared(v0.zones, f0, fs.bs / 4, n) && Sized(v0.zones, fs.bs)
    && n < MaxZones(fs.bs / 4) && target in v0.zoneMap
    && (forall z :: z in free0 ==> z !in v0.zoneMap && z in v0.zones && z != 0)
    && (forall s :: Live(fs.bs / 4, n, s) ==>
          SlotZone(v0.zones, f0, fs.bs / 4, s) in v0.zones && SlotZone(v0.zones, f0, fs.bs / 4, s) in v0.zoneMap)
  }

  lemma HungDirect(fs: FileStore, v0: Volume, free0: set<nat>, f0: Inode, n: nat, target: u32)
    requires fs.bs >= 4 && BeforeHang(fs, v0, free0, f0, n, target) && n < IDZONE
    ensures Hung(fs, v0, free0, f0, v0, free0, f0.(zones := f0.zones[n := target]), n, target, map[Data(n) := target])
  {
    GrowDirect(v0.zones, f0, fs.bs / 4, n, target);
    assert v0.zoneMap + {target} == v0.zoneMap && free0 - {target} == free0;
  }

  lemma HungFirstIndirect(fs: FileStore, v0: Volume, free0: set<nat>, f0: Inode, target: u32, a: u32, v: Volume)
    requires fs.bs >= 4 && BeforeHang(fs, v0, free0, f0, IDZONE, target) && a in free0
    requires v == v0.(zones := v0.zones[a := WithPointer(Zeros(fs.bs), 0, target)], zoneMap := v0.zoneMap + {a})
    ensures Hung(fs, v0, free0, f0, v, free0 - {a}, f0.(zones := f0.zones[IDZONE := a]), IDZONE, target,
                 map[Data(IDZONE) := target, Ind := a])
  {
    var given := map[Data(IDZONE) := target, Ind := a];
    GrowFirstIndirect(v0.zones, f0, fs.bs, a, target);
    assert given.Values == {target, a};
    assert v0.zoneMap + given.Values == v0.zoneMap + {a} && free0 - given.Values == free0 - {a};
  }

  /** Storing the pointer in a block the file already has: the indirect block, or a row of the doubly indirect part. */
  lemma HungInPlace(fs: FileStore, v0: Volume, free0: set<nat>, f0: Inode, n: nat, target: u32, s: Slot, j: nat, v: Volume)
    requires fs.bs >= 4 && BeforeHang(fs, v0, free0, f0, n, target) && 0 < j < fs.bs / 4
    requires (s == Ind && n == IDZONE + j) || (s.DIndK? && s.k < fs.bs / 4 && n == DoubleIndex(fs.bs / 4, s.k, j))
    requires var b := SlotZone(v0.zones, f0, fs.bs / 4, s);
             b in v0.zones && v == v0.(zones := v0.zones[b := WithPointer(v0.zones[b], j, target)])
    ensures Hung(fs, v0, free0, f0, v, free0, f0, n, target, map[Data(n) := target])
  {
    hide WithPointer, Grown, Splice;
    var b := SlotZone(v0.zones, f0, fs.bs / 4, s);
    if s == Ind {
      GrowIndirect(v0.zones, f0, fs.bs, n, target);
    } else {
      GrowRow(v0.zones, f0, fs.bs, s.k, j, target);
    }
    assert Live(fs.bs / 4, n, s) && IsPointerSlot(s);
    assert v0.zoneMap + {target} == v0.zoneMap && free0 - {target} == free0;
  }

  lemma HungFirstDouble(fs: FileStore, v0: Volume, free0: set<nat>, f0: Inode, target: u32, a: u32, b: u32, v: Volume)
    requires fs.bs >= 4 && BeforeHang(fs, v0, free0, f0, IDZONE + fs.bs / 4, target)
    requires a in free0 && b in free0 && a != b
    requires v == v0.(zones := FirstDouble(v0.zones, fs.bs, a, b, target), zoneMap := v0.zoneMap + {a} + {b})
    ensures Hung(fs, v0, free0, f0, v, free0 - {a} - {b}, f0.(zones := f0.zones[IIDZONE := a]), IDZONE + fs.bs / 4, target,
                 map[Data(IDZONE + fs.bs / 4) := target, DInd := a, DIndK(0) := b])
  {
    var given := map[Data(IDZONE + fs.bs / 4) := target, DInd := a, DIndK(0) := b];
    GrowFirstDouble(v0.zones, f0, fs.bs, a, b, target);
    assert given.Values == {target, a, b};
    assert v0.zoneMap + given.Values == v0.zoneMap + {a} + {b} && free0 - given.Values == free0 - {a} - {b};
  }

  lemma HungNewRow(fs: FileStore, v0: Volume, free0: set<nat>, f0: Inode, k: nat, target: u32, b: u32, v: Volume)
    requires fs.bs >= 4 && 0 < k < fs.bs / 4 && BeforeHang(fs, v0, free0, f0, DoubleIndex(fs.bs / 4, k, 0), target)
    requires f0.zones[IIDZONE] in v0.zones && b in free0
    requires v == v0.(zones := NewRow(v0.zones, fs.bs, f0.zones[IIDZONE], k, b, target), zoneMap := v0.zoneMap + {b})
    ensures Hung(fs, v0, free0, f0, v, free0 - {b}, f0, DoubleIndex(fs.bs / 4, k, 0), target,
                 map[Data(DoubleIndex(fs.bs / 4, k, 0)) := target, DIndK(k) := b])
  {
    var n := DoubleIndex(fs.bs / 4, k, 0);
    var given := map[Data(n) := target, DIndK(k) := b];
    GrowNewRow(v0.zones, f0, fs.bs, k, b, target);
    assert given[Data(n)] == target && given[DIndK(k)] == b;
    assert given.Values == {target, b};
    TimesMono(1, k, fs.bs / 4);
    assert Live(fs.bs / 4, n, DInd) && IsPointerSlot(DInd);
    assert SlotZone(v0.zones, f0, fs.bs / 4, DInd) == f0.zones[IIDZONE];
    assert v0.zoneMap + given.Values == v0.zoneMap + {b} && free0 - given.Values == free0 - {b};
  }

  lemma CanHangFacts(fs: FileStore, v: Volume, free: set<nat>, f0: Inode, n: nat, target: nat)
    requires Sound(fs.sb, fs.bs, v, f0, n) && CanHang(fs.sb, fs.bs, v, free, f0, n, target)
    ensures fs.bs >= 4 && BeforeHang(fs, v, free, f0, n, target)
    ensures |free| >= |NewSlots(fs.bs / 4, n)| - 1 && n < MaxZones(fs.bs / 4)
  {
  }

  lemma SomeLeft<T>(s: set<T>)
    requires |s| > 0
    ensures s != {}
  {
  }

  lemma NewSlotsIndirect(ppz: nat)
    requires ppz > 0
    ensures |NewSlots(ppz, IDZONE)| == 2
  {
    assert NewSlots(ppz, IDZONE) == {Data(IDZONE), Ind};
  }

  lemma IndirectPointer(sb: Superblock, bs: nat, v: Volume, f: Inode, n: nat)
    requires Sound(sb, bs, v, f, n)
    ensures bs >= 64 && bs % 64 == 0 && f.Wf() && ZoneEnd(sb) < 0x1_0000_0000 && sb.firstDataZone >= 1
    ensures Dense(v.zones, f, bs / 4, n)
    ensures f.zones[IDZONE] != 0 <==> n > IDZONE
    ensures f.zones[IDZONE] != 0 ==> InZones(sb, f.zones[IDZONE])
    ensures SlotZone(v.zones, f, bs / 4, Ind) == f.zones[IDZONE]
  {
    assert IsSlot(bs / 4, Ind);
    assert n > IDZONE ==> Live(bs / 4, n, Ind);
  }

  /** The singly indirect part; `given` is meaningful when a zone was hung. */
  method WalkIndirect(fs: FileStore, f0: Inode, index: nat, remaining0: nat, doSet: bool, target: u32, ghost n: nat)
    returns (done: bool, zone: nat, f: Inode, i: nat, remaining: nat, ghost given: map<Slot, nat>)
    requires Walkable(fs, f0, n) && n == Count(f0.size, fs.bs) && index >= IDZONE
    requires remaining0 == Remaining(f0.size, fs.bs, IDZONE)
    requires doSet ==> index == n && CanHang(fs.sb, fs.bs, fs.Vol(), FreeAhead(fs.sb, fs.Vol().zoneMap, fs.zoneCursor), f0, n, target)
    modifies if doSet then {fs.dev.data} else {}, fs`zoneCursor
    ensures fs.Mounted() && f.Wf() && (done ==> index < IDZONE + fs.bs / 4)
    ensures i == (if done then index else IDZONE + fs.bs / 4) && remaining == Remaining(f0.size, fs.bs, i)
    ensures !done || !doSet ==> f == f0 && fs.dev.Image() == old(fs.dev.Image()) && fs.zoneCursor == old(fs.zoneCursor)
    ensures index < IDZONE + fs.bs / 4 && index < n ==>
      done && (!doSet ==> zone == SlotZone(old(fs.Vol()).zones, f0, fs.bs / 4, Data(index)))
    ensures index < IDZONE + fs.bs / 4 && doSet ==>
      && done && zone == target
      && Hung(fs, old(fs.Vol()), old(FreeAhead(fs.sb, fs.Vol().zoneMap, fs.zoneCursor)), f0,
              fs.Vol(), FreeAhead(fs.sb, fs.Vol().zoneMap, fs.zoneCursor), f, n, target, given)
  {
    hide Fits, Meaning, Count, Times, Remaining, Unshared, WithPointer, Hung, Dense, CanHang, NewSlots, SlotZone,
      BeforeHang, Pointer, FreeAhead, Sound;
    var ppz := fs.bs / 4;
    ghost var v0, free0 := fs.Vol(), FreeAhead(fs.sb, fs.Vol().zoneMap, fs.zoneCursor);
    f, i, remaining, zone, given := f0, IDZONE, remaining0, *, map[];
    IndirectPointer(fs.sb, fs.bs, v0, f0, n);
    if doSet { CanHangFacts(fs, v0, free0, f0, n, target); }
    if i == index && doSet {
      NewSlotsIndirect(ppz);
      SomeLeft(free0);
      var next := fs.TakePointerBlock();
      f := f.(zones := f.zones[IDZONE := next]);
    }
    if f.zones[IDZONE] != 0 {
      BlockPointers(v0.zones, f0, ppz, n, Ind, IDZONE);
      done, zone, i, remaining := WalkPointerBlock(fs, f.zones[IDZONE], i, index, remaining, doSet, target, f0.size);
      if done && doSet {
        ghost var a := f.zones[IDZONE];
        if index == IDZONE {
          given := map[Data(n) := target, Ind := a];
          assert fs.Vol().zones == v0.zones[a := WithPointer(Zeros(fs.bs), 0, target)];
          HungFirstIndirect(fs, v0, free0, f0, target, a, fs.Vol());
        } else {
          given := map[Data(n) := target];
          HungInPlace(fs, v0, free0, f0, n, target, Ind, n - IDZONE, fs.Vol());
        }
      }
    } else {
      RemainingPastEnd(f0.size, fs.bs, i);
      RemainingPastEnd(f0.size, fs.bs, i + ppz);
      i := i + ppz;
      done := false;
    }
  }

  lemma DoublePointer(sb: Superblock, bs: nat, v: Volume, f: Inode, n: nat)
    requires Sound(sb, bs, v, f, n)
    ensures bs >= 64 && bs % 64 == 0 && f.Wf() && n <= MaxZones(bs / 4)
    ensures ZoneEnd(sb) < 0x1_0000_0000 && sb.firstDataZone >= 1
    ensures f.zones[IIDZONE] != 0 <==> n > IDZONE + bs / 4
    ensures f.zones[IIDZONE] != 0 ==> InZones(sb, f.zones[IIDZONE])
    ensures SlotZone(v.zones, f, bs / 4, DInd) == f.zones[IIDZONE]
  {
    assert IsSlot(bs / 4, DInd);
    assert n > IDZONE + bs / 4 ==> Live(bs / 4, n, DInd);
  }

  lemma RowPointer(sb: Superblock, bs: nat, v: Volume, f: Inode, n: nat, k: nat)
    requires Sound(sb, bs, v, f, n) && k < bs / 4
    ensures var row := SlotZone(v.zones, f, bs / 4, DIndK(k));
            && row == Pointer(v.zones, f.zones[IIDZONE], k)
            && (row != 0 <==> n > DoubleIndex(bs / 4, k, 0)) && (row != 0 ==> InZones(sb, row))
            && (forall j :: 0 <= j < bs / 4 ==>
                  Pointer(v.zones, row, j) == SlotZone(v.zones, f, bs / 4, Data(DoubleIndex(bs / 4, k, j)))
                  && (Pointer(v.zones, row, j) != 0 <==> DoubleIndex(bs / 4, k, j) < n))
  {
    assert IsSlot(bs / 4, DIndK(k));
    assert Live(bs / 4, n, DIndK(k)) <==> n > DoubleIndex(bs / 4, k, 0);
    BlockPointers(v.zones, f, bs / 4, n, DIndK(k), DoubleIndex(bs / 4, k, 0));
    forall j | 0 <= j < bs / 4
      ensures var row := SlotZone(v.zones, f, bs / 4, DIndK(k));
              Pointer(v.zones, row, j) == SlotZone(v.zones, f, bs / 4, Data(DoubleIndex(bs / 4, k, j)))
              && (Pointer(v.zones, row, j) != 0 <==> DoubleIndex(bs / 4, k, j) < n)
    {
      assert DoubleIndex(bs / 4, k, j) == DoubleIndex(bs / 4, k, 0) + j;
    }
  }

  lemma NewSlotsRow(ppz: nat, k: nat)
    requires k < ppz
    ensures |NewSlots(ppz, DoubleIndex(ppz, k, 0))| == if k == 0 then 3 else 2
  {
    NewSlotsDouble(ppz, k, 0);
    var d := Data(DoubleIndex(ppz, k, 0));
    assert NewSlots(ppz, DoubleIndex(ppz, k, 0)) == if k == 0 then {d, DInd, DIndK(0)} else {d, DIndK(k)};
  }

  /** Entry k of pointer block ii names the fresh block `row`. */
  function RowHung(zs: Zones, bs: nat, ii: nat, k: nat, row: u32): Zones
    requires ii in zs && 4 * k + 4 <= |zs[ii]|
  {
    zs[ii := WithPointer(zs[ii], k, row)][row := Zeros(bs)]
  }

  /** Row k of the doubly indirect part, when the walk reaches it: allocate it if the new zone is its first. */
  method EnterRow(fs: FileStore, block: array<byte>, ii: nat, k: nat, starts: bool, ghost v: Volume, ghost free: set<nat>)
    returns (row: nat)
    requires fs.Mounted() && v == fs.Vol() && free == FreeAhead(fs.sb, v.zoneMap, fs.zoneCursor)
    requires fs.bs >= 64 && fs.bs % 64 == 0 && InZones(fs.sb, ii) && k < fs.bs / 4 && ZoneEnd(fs.sb) < 0x1_0000_0000
    requires block != fs.dev.data && ii in v.zones && block[..] == v.zones[ii] && |v.zones[ii]| == fs.bs
    requires starts ==> free != {} && ii in v.zoneMap
    modifies if starts then {fs.dev.data, block} else {}, fs`zoneCursor
    ensures fs.Mounted()
    ensures !starts ==>
      && row == Pointer(v.zones, ii, k) && fs.dev.Image() == old(fs.dev.Image())
      && fs.zoneCursor == old(fs.zoneCursor) && block[..] == old(block[..])
    ensures starts ==>
      && row in free && InZones(fs.sb, row) && row != ii
      && FreeAhead(fs.sb, fs.Vol().zoneMap, fs.zoneCursor) == free - {row}
      && fs.Vol() == v.(zones := RowHung(v.zones, fs.bs, ii, k, row), zoneMap := v.zoneMap + {row})
  {
    hide Fits, Meaning, FreeAhead, Word, WithPointer;
    if starts {
      var next := fs.TakePointerBlock();
      StorePointer(fs, block, ii, k, next);
      assert fs.Vol().zones == v.zones[ii := WithPointer(v.zones[ii], k, next)][next := Zeros(fs.bs)];
    }
    row := Word(block[..], k);
  }

  /**
   * The volume when the row loop starts: as before the walk, or with a fresh doubly indirect block when the new
   * zone is the first one of the doubly indirect part.
   */
  ghost predicate RowsReady(bs: nat, v0: Volume, free0: set<nat>, f0: Inode, v: Volume, free: set<nat>, f: Inode, first: bool)
    requires f0.Wf() && f.Wf()
  {
    if first then
      var ii := f.zones[IIDZONE];
      && f == f0.(zones := f0.zones[IIDZONE := ii]) && ii in free0 && free == free0 - {ii}
      && v == v0.(zones := v0.zones[ii := Zeros(bs)], zoneMap := v0.zoneMap + {ii})
    else
      f == f0 && free == free0 && v == v0
  }

  /** What hanging the first zone of row k needs. */
  lemma RowStarts(fs: FileStore, v0: Volume, free0: set<nat>, f0: Inode, k: nat, n: nat, target: nat)
    requires Sound(fs.sb, fs.bs, v0, f0, n) && BeforeHang(fs, v0, free0, f0, n, target)
    requires k < fs.bs / 4 && n == DoubleIndex(fs.bs / 4, k, 0) && |free0| >= |NewSlots(fs.bs / 4, n)| - 1
    ensures k == 0 <==> n == IDZONE + fs.bs / 4
    ensures k > 0 ==> f0.zones[IIDZONE] in v0.zoneMap && f0.zones[IIDZONE] in v0.zones && free0 != {}
    ensures k == 0 ==> forall z :: z in free0 ==> free0 - {z} != {}
  {
    NewSlotsRow(fs.bs / 4, k);
    if k > 0 {
      TimesMono(1, k, fs.bs / 4);
      assert Live(fs.bs / 4, n, DInd) && SlotZone(v0.zones, f0, fs.bs / 4, DInd) == f0.zones[IIDZONE];
    } else {
      forall z | z in free0 ensures free0 - {z} != {} {
        SomeLeft(free0 - {z});
      }
    }
  }

  lemma RowFilled(zs: Zones, bs: nat, ii: nat, k: nat, row: u32, t: u32)
    requires bs >= 4 && ii in zs && 4 * k + 4 <= |zs[ii]|
    ensures var zs1 := RowHung(zs, bs, ii, k, row);
            row in zs1 && |zs1[row]| == bs && zs1[row := WithPointer(zs1[row], 0, t)] == NewRow(zs, bs, ii, k, row, t)
  {
  }

  lemma FreshDouble(zs: Zones, bs: nat, a: u32, b: u32, t: u32)
    requires bs >= 4
    ensures NewRow(zs[a := Zeros(bs)], bs, a, 0, b, t) == FirstDouble(zs, bs, a, b, t)
  {
  }

  /** One turn of the row loop. */
  method WalkRow(fs: FileStore, block: array<byte>, ghost f0: Inode, f: Inode, k: nat, i0: nat, index: nat,
                 remaining0: nat, doSet: bool, target: u32, ghost n: nat, ghost v0: Volume, ghost free0: set<nat>)
    returns (done: bool, zone: nat, i: nat, remaining: nat, ghost given: map<Slot, nat>)
    requires fs.Mounted() && Sound(fs.sb, fs.bs, v0, f0, n) && n == Count(f0.size, fs.bs) && f0.Wf() && f.Wf()
    requires k < fs.bs / 4 && i0 == DoubleIndex(fs.bs / 4, k, 0) && remaining0 == Remaining(f0.size, fs.bs, i0)
    requires index < n || doSet ==> i0 <= index
    requires RowsReady(fs.bs, v0, free0, f0, fs.Vol(), FreeAhead(fs.sb, fs.Vol().zoneMap, fs.zoneCursor), f,
                       doSet && index == IDZONE + fs.bs / 4) && InZones(fs.sb, f.zones[IIDZONE])
    requires block != fs.dev.data && block[..] == fs.Vol().zones[f.zones[IIDZONE]]
    requires doSet ==> index == n && BeforeHang(fs, v0, free0, f0, n, target) && |free0| >= |NewSlots(fs.bs / 4, n)| - 1
    modifies if doSet then {fs.dev.data, block} else {}, fs`zoneCursor
    ensures fs.Mounted()
    ensures done ==> index < i0 + fs.bs / 4
    ensures i == (if done then index else i0 + fs.bs / 4) && remaining == Remaining(f0.size, fs.bs, i)
    ensures !done || !doSet ==>
      fs.dev.Image() == old(fs.dev.Image()) && fs.zoneCursor == old(fs.zoneCursor) && block[..] == old(block[..])
    ensures index < n && index < i0 + fs.bs / 4 ==>
      done && (!doSet ==> zone == SlotZone(v0.zones, f0, fs.bs / 4, Data(index)))
    ensures doSet && index < i0 + fs.bs / 4 ==>
      && done && zone == target
      && Hung(fs, v0, free0, f0, fs.Vol(), FreeAhead(fs.sb, fs.Vol().zoneMap, fs.zoneCursor), f, n, target, given)
  {
    hide Fits, Meaning, Count, Times, Remaining, Unshared, WithPointer, Hung, Dense, NewSlots, SlotZone,
      BeforeHang, Pointer, FreeAhead, Sound, MaxZones, RowHung, NewRow, FirstDouble;
    var ppz := fs.bs / 4;
    i, remaining, zone, given, done := i0, remaining0, *, map[], false;
    DoublePointer(fs.sb, fs.bs, v0, f0, n);
    RowPointer(fs.sb, fs.bs, v0, f0, n, k);
    var starts := i == index && doSet;
    if starts {
      RowStarts(fs, v0, free0, f0, k, n, target);
    }
    var row := EnterRow(fs, block, f.zones[IIDZONE], k, starts, fs.Vol(), FreeAhead(fs.sb, fs.Vol().zoneMap, fs.zoneCursor));
    if row != 0 {
      done, zone, i, remaining := WalkPointerBlock(fs, row, i, index, remaining, doSet, target, f0.size);
      if done && doSet {
        ghost var a := f.zones[IIDZONE];
        if !starts {
          given := map[Data(n) := target];
          HungInPlace(fs, v0, free0, f0, n, target, DIndK(k), n - i0, fs.Vol());
        } else if k == 0 {
          given := map[Data(n) := target, DInd := a, DIndK(0) := row];
          RowFilled(v0.zones[a := Zeros(fs.bs)], fs.bs, a, 0, row, target);
          FreshDouble(v0.zones, fs.bs, a, row, target);
          HungFirstDouble(fs, v0, free0, f0, target, a, row, fs.Vol());
        } else {
          given := map[Data(n) := target, DIndK(k) := row];
          RowFilled(v0.zones, fs.bs, a, k, row, target);
          HungNewRow(fs, v0, free0, f0, k, target, row, fs.Vol());
        }
      }
    } else {
      RemainingPastEnd(f0.size, fs.bs, i);
      RemainingPastEnd(f0.size, fs.bs, i + ppz);
      i := i + ppz;
    }
  }

  /** A set walk that starts the doubly indirect part does so at its first index. */
  lemma FirstDoubleRoom(ppz: nat, free: set<nat>)
    requires ppz > 0 && |free| >= |NewSlots(ppz, IDZONE + ppz)| - 1
    ensures free != {}
  {
    assert Times(0, ppz) == 0;
    NewSlotsRow(ppz, 0);
    SomeLeft(free);
  }

  lemma DoubleIndexNext(ppz: nat, k: nat)
    ensures DoubleIndex(ppz, k + 1, 0) == DoubleIndex(ppz, k, 0) + ppz
  {
  }

  lemma DoubleIndexEnds(ppz: nat)
    ensures DoubleIndex(ppz, 0, 0) == IDZONE + ppz && DoubleIndex(ppz, ppz, 0) == MaxZones(ppz)
  {
  }

  /** The doubly indirect part. */
  method WalkDouble(fs: FileStore, f0: Inode, index: nat, remaining0: nat, doSet: bool, target: u32, ghost n: nat)
    returns (done: bool, zone: nat, f: Inode, remaining: nat, ghost given: map<Slot, nat>)
    requires Walkable(fs, f0, n) && n == Count(f0.size, fs.bs) && index >= IDZONE + fs.bs / 4
    requires remaining0 == Remaining(f0.size, fs.bs, IDZONE + fs.bs / 4)
    requires doSet ==> index == n && CanHang(fs.sb, fs.bs, fs.Vol(), FreeAhead(fs.sb, fs.Vol().zoneMap, fs.zoneCursor), f0, n, target)
    modifies if doSet then {fs.dev.data} else {}, fs`zoneCursor
    ensures fs.Mounted() && f.Wf()
    ensures remaining == Remaining(f0.size, fs.bs, index)
    ensures !doSet ==> f == f0 && fs.dev.Image() == old(fs.dev.Image()) && fs.zoneCursor == old(fs.zoneCursor)
    ensures index < n ==> done && (!doSet ==> zone == SlotZone(old(fs.Vol()).zones, f0, fs.bs / 4, Data(index)))
    ensures doSet ==>
      && done && zone == target
      && Hung(fs, old(fs.Vol()), old(FreeAhead(fs.sb, fs.Vol().zoneMap, fs.zoneCursor)), f0,
              fs.Vol(), FreeAhead(fs.sb, fs.Vol().zoneMap, fs.zoneCursor), f, n, target, given)
  {
    hide Fits, Meaning, Count, Times, Remaining, Unshared, WithPointer, Hung, Dense, CanHang, NewSlots, SlotZone,
      BeforeHang, Pointer, FreeAhead, Sound, MaxZones;
    var ppz := fs.bs / 4;
    ghost var v0, free0 := fs.Vol(), FreeAhead(fs.sb, fs.Vol().zoneMap, fs.zoneCursor);
    f, remaining, zone, given, done := f0, remaining0, *, map[], false;
    var i := IDZONE + ppz;
    DoublePointer(fs.sb, fs.bs, v0, f0, n);
    if doSet { CanHangFacts(fs, v0, free0, f0, n, target); }
    ghost var first := doSet && index == IDZONE + ppz;
    if i == index && doSet {
      FirstDoubleRoom(ppz, free0);
      var next := fs.TakePointerBlock();
      f := f.(zones := f.zones[IIDZONE := next]);
    }
    ghost var v1, free1 := fs.Vol(), FreeAhead(fs.sb, fs.Vol().zoneMap, fs.zoneCursor);
    assert RowsReady(fs.bs, v0, free0, f0, v1, free1, f, first);
    assert doSet ==> f.zones[IIDZONE] != 0;
    if f.zones[IIDZONE] != 0 {
      var block := new byte[fs.bs](_ => 0);
      fs.ReadInZone(block, 0, f.zones[IIDZONE], 0, fs.bs);
      ghost var img, cursor := fs.dev.Image(), fs.zoneCursor;
      assert f.zones[IIDZONE] in v1.zones && block[..] == v1.zones[f.zones[IIDZONE]];
      DoubleIndexEnds(ppz);
      var k := 0;
      while k < ppz
        invariant 0 <= k <= ppz && i == DoubleIndex(ppz, k, 0) && remaining == Remaining(f0.size, fs.bs, i)
        invariant index < n || doSet ==> i <= index
        invariant fs.Mounted() && fs.dev.Image() == img && fs.zoneCursor == cursor
        invariant fresh(block) && block != fs.dev.data && block[..] == v1.zones[f.zones[IIDZONE]]
      {
        done, zone, i, remaining, given :=
          WalkRow(fs, block, f0, f, k, i, index, remaining, doSet, target, n, v0, free0);
        if done {
          return;
        }
        DoubleIndexNext(ppz, k);
        k := k + 1;
      }
    } else {
      var square := Product(ppz, ppz);
      RemainingPastEnd(f0.size, fs.bs, i);
      i := i + square;
    }
    done := false;
    RemainingPastEnd(f0.size, fs.bs, i);
    RemainingPastEnd(f0.size, fs.bs, index);
  }

  /**
   * minix3_zone_walker.  Reading at `index` gives that data zone (unspecified at or past the end of an indirect
   * part) and what remains of the file from there; setting at the end of the file hangs `target` there.
   */
  method ZoneWalker(fs: FileStore, f0: Inode, index: nat, doSet: bool, target: u32, ghost n: nat)
    returns (zone: nat, f: Inode, remaining: nat, ghost given: map<Slot, nat>)
    requires Walkable(fs, f0, n) && n == Count(f0.size, fs.bs)
    requires doSet ==> index < IDZONE || (index == n && CanHang(fs.sb, fs.bs, fs.Vol(), FreeAhead(fs.sb, fs.Vol().zoneMap, fs.zoneCursor), f0, n, target))
    modifies if doSet then {fs.dev.data} else {}, fs`zoneCursor
    ensures fs.Mounted() && f.Wf()
    ensures remaining == Remaining(f0.size, fs.bs, index)
    ensures !doSet || index < IDZONE ==> fs.dev.Image() == old(fs.dev.Image()) && fs.zoneCursor == old(fs.zoneCursor)
    ensures !doSet ==>
      && f == f0 && (index < IDZONE ==> zone == f0.zones[index])
      && (index < n ==> zone == SlotZone(old(fs.Vol()).zones, f0, fs.bs / 4, Data(index)))
    ensures doSet && index < IDZONE ==> zone == target && f == f0.(zones := f0.zones[index := target])
    ensures doSet && index == n && old(CanHang(fs.sb, fs.bs, fs.Vol(), FreeAhead(fs.sb, fs.Vol().zoneMap, fs.zoneCursor), f0, n, target)) ==>
      && zone == target
      && Hung(fs, old(fs.Vol()), old(FreeAhead(fs.sb, fs.Vol().zoneMap, fs.zoneCursor)), f0,
              fs.Vol(), FreeAhead(fs.sb, fs.Vol().zoneMap, fs.zoneCursor), f, n, target, given)
  {
    hide Fits, Meaning, Count, Times, Remaining, Hung, Dense, CanHang, BeforeHang, Unshared, Pointer, FreeAhead;
    ghost var v0, free0 := fs.Vol(), FreeAhead(fs.sb, fs.Vol().zoneMap, fs.zoneCursor);
    given := map[];
    IndirectPointer(fs.sb, fs.bs, v0, f0, n);
    var done, i;
    done, zone, f, i, remaining := WalkDirect(fs, f0, index, doSet, target, n);
    if done {
      if doSet && index == n && CanHang(fs.sb, fs.bs, v0, free0, f0, n, target) {
        CanHangFacts(fs, v0, free0, f0, n, target);
        given := map[Data(n) := target];
        HungDirect(fs, v0, free0, f0, n, target);
      }
      return;
    }
    done, zone, f, i, remaining, given := WalkIndirect(fs, f, index, remaining, doSet, target, n);
    if done {
      return;
    }
    if index >= IDZONE + fs.bs / 4 {
      done, zone, f, remaining, given := WalkDouble(fs, f, index, remaining, doSet, target, n);
    } else {
      RemainingPastEnd(f0.size, fs.bs, i);
      RemainingPastEnd(f0.size, fs.bs, index);
    }
  }

  /** minix3_gzbars: the zone at an index, and what remains of the file from there. */
  method Gzbars(fs: FileStore, f: Inode, index: nat, ghost n: nat) returns (zone: nat, remaining: nat)
    requires Walkable(fs, f, n) && n == Count(f.size, fs.bs)
    modifies fs`zoneCursor
    ensures fs.zoneCursor == old(fs.zoneCursor)
    ensures remaining == Remaining(f.size, fs.bs, index)
    ensures index < IDZONE ==> zone == f.zones[index]
    ensures index < n ==> zone == SlotZone(fs.Vol().zones, f, fs.bs / 4, Data(index))
  {
    hide Fits, Meaning, Dense, Unshared, Sound, Count, Remaining, SlotZone, CanHang;
    var f';
    ghost var given;
    zone, f', remaining, given := ZoneWalker(fs, f, index, false, 0, n);
  }
}
