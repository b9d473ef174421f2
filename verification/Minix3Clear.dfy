/** Giving a file's zones back (minix3_clear_all_zones). */
module Minix3Clear {
  import opened Bytes
  import opened Arith
  import opened Minix3Layout
  import opened Minix3Slots
  import opened Minix3Files
  import opened Minix3Disk
  import opened Minix3Walker
  import opened Minix3Append

  /** The zones file i holds in its first m data slots, and in the indirect slot if `ind`. */
  ghost function HeldUpTo(owner: Owners, i: nat, m: nat, ind: bool): set<nat>
  {
    set z | z in owner && owner[z].0 == i &&
            match owner[z].1 case Data(k) => k < m case Ind => ind case _ => false
  }

  /** All zones file i holds. */
  ghost function Held(owner: Owners, i: nat): set<nat>
  {
    set z | z in owner && owner[z].0 == i
  }

  /** Passing data slot k frees the zone in it, if there is one. */
  lemma HeldNext(zs: Zones, ppz: nat, files: Files, owner: Owners, i: nat, k: nat, ind: bool)
    requires ppz > 0 && Owned(zs, ppz, files, owner) && i in files && k < MaxZones(ppz) && files[i].inode.Wf()
    ensures var z := SlotZone(zs, files[i].inode, ppz, Data(k));
            && HeldUpTo(owner, i, k + 1, ind) == HeldUpTo(owner, i, k, ind) + (if z != 0 then {z} else {})
            && (z != 0 <==> k < files[i].count) && (z != 0 ==> z in owner && z in zs)
  {
    var z := SlotZone(zs, files[i].inode, ppz, Data(k));
    OwnedFile(zs, ppz, files, owner, i);
    assert IsSlot(ppz, Data(k));
    assert z != 0 <==> Live(ppz, files[i].count, Data(k));
    forall y | y in owner && owner[y] == (i, Data(k)) ensures y == z {
      assert Holds(zs, ppz, files, i, Data(k), y);
    }
  }

  /** A file without doubly indirect zones holds its data zones and its indirect block. */
  lemma HeldAll(zs: Zones, ppz: nat, files: Files, owner: Owners, i: nat)
    requires ppz > 0 && Owned(zs, ppz, files, owner) && i in files && files[i].count <= IDZONE + ppz
    requires files[i].inode.Wf()
    ensures Held(owner, i) == HeldUpTo(owner, i, files[i].count, true)
    ensures files[i].count <= IDZONE ==> Held(owner, i) == HeldUpTo(owner, i, files[i].count, false)
    ensures files[i].count > IDZONE ==>
      Held(owner, i) == HeldUpTo(owner, i, files[i].count, false) + {files[i].inode.zones[IDZONE]}
    ensures forall m, ind :: m >= files[i].count ==> HeldUpTo(owner, i, m, ind) == HeldUpTo(owner, i, files[i].count, ind)
  {
    OwnedFile(zs, ppz, files, owner, i);
    var f, n := files[i].inode, files[i].count;
    forall z | z in owner && owner[z].0 == i
      ensures match owner[z].1 case Data(k) => k < n case Ind => n > IDZONE && z == f.zones[IDZONE] case _ => false
    {
      assert Holds(zs, ppz, files, i, owner[z].1, z);
    }
    if n > IDZONE {
      assert Live(ppz, n, Ind) && SlotZone(zs, f, ppz, Ind) == f.zones[IDZONE];
    }
  }

  /** What is left while the zones of a file are being given back. */
  ghost predicate Clearing(fs: FileStore, v0: Volume, v: Volume, gone: set<nat>)
  {
    v == v0.(zoneMap := v0.zoneMap - gone)
  }

  /** Free the zones in the seven direct slots. */
  method ClearDirect(fs: FileStore, f0: Inode, ghost files: Files, ghost i: nat) returns (f: Inode, remaining: nat)
    requires fs.Mounted() && fs.bs >= 4 && Coherent(fs.sb, fs.bs, fs.Vol(), files, fs.owner)
    requires i in files && files[i].inode == f0 && f0.Wf() && files[i].count == Count(f0.size, fs.bs)
    modifies fs.dev.data
    ensures fs.Mounted() && f.Wf() && f.zones[IDZONE..] == f0.zones[IDZONE..]
    ensures remaining == Remaining(f0.size, fs.bs, IDZONE)
    ensures Clearing(fs, old(fs.Vol()), fs.Vol(), HeldUpTo(fs.owner, i, IDZONE, false))
    ensures forall k :: 0 <= k < IDZONE ==> f.zones[k] == 0
  {
    hide Fits, Meaning, Count, Remaining, MaxZones, HeldUpTo, Owned, SlotZone;
    ghost var v0 := fs.Vol();
    f, remaining := f0, f0.size;
    RemainingAtStart(f0.size, fs.bs);
    NothingHeld(fs.owner, i);
    var k := 0;
    while k < IDZONE
      invariant 0 <= k <= IDZONE && fs.Mounted() && f.Wf() && remaining == Remaining(f0.size, fs.bs, k)
      invariant f.zones[k..] == f0.zones[k..] && forall m :: 0 <= m < k ==> f.zones[m] == 0
      invariant Clearing(fs, v0, fs.Vol(), HeldUpTo(fs.owner, i, k, false))
    {
      DirectSlot(v0.zones, fs.bs / 4, files, i, k);
      HeldNext(v0.zones, fs.bs / 4, files, fs.owner, i, k, false);
      assert f.zones[k] == f.zones[k..][0] == f0.zones[k];
      RemainingNext(f0.size, fs.bs, k);
      if f.zones[k] != 0 {
        remaining := remaining - (if fs.bs < remaining then fs.bs else remaining);
        var _ := fs.SetZoneAs(f.zones[k], false);
        f := f.(zones := f.zones[k := 0]);
      }
      assert f.zones[k + 1..] == f0.zones[k..][1..] == f0.zones[k + 1..];
      k := k + 1;
    }
  }

  lemma NothingHeld(owner: Owners, i: nat)
    ensures HeldUpTo(owner, i, 0, false) == {}
  {
  }

  lemma DirectSlot(zs: Zones, ppz: nat, files: Files, i: nat, k: nat)
    requires ppz > 0 && i in files && files[i].inode.Wf() && k < IDZONE
    ensures SlotZone(zs, files[i].inode, ppz, Data(k)) == files[i].inode.zones[k] && k < MaxZones(ppz)
  {
  }

  /** Free the zones the indirect block points at, then the block itself. */
  method ClearIndirect(fs: FileStore, f0: Inode, remaining0: nat, ghost files: Files, ghost i: nat, ghost v0: Volume)
    returns (f: Inode, remaining: nat)
    requires fs.Mounted() && fs.bs >= 64 && fs.bs % 64 == 0 && Coherent(fs.sb, fs.bs, v0, files, fs.owner)
    requires i in files && files[i].inode.Wf() && files[i].count == Count(files[i].inode.size, fs.bs)
    requires IDZONE < files[i].count <= IDZONE + fs.bs / 4
    requires f0.Wf() && f0.zones[IDZONE] == files[i].inode.zones[IDZONE]
    requires remaining0 == Remaining(files[i].inode.size, fs.bs, IDZONE)
    requires Clearing(fs, v0, fs.Vol(), HeldUpTo(fs.owner, i, IDZONE, false))
    modifies fs.dev.data
    ensures fs.Mounted() && f == f0.(zones := f0.zones[IDZONE := 0]) && remaining == 0
    ensures Clearing(fs, v0, fs.Vol(), Held(fs.owner, i))
  {
    hide Fits, Meaning, Count, Remaining, MaxZones, HeldUpTo, Held, Owned, SlotZone, Word, Pointer;
    var ppz := fs.bs / 4;
    ghost var size := files[i].inode.size;
    f, remaining := f0, remaining0;
    IndirectBlock(fs.sb, fs.bs, v0, files, fs.owner, i);
    ghost var a := f.zones[IDZONE];
    var block := new byte[fs.bs](_ => 0);
    fs.ReadInZone(block, 0, f.zones[IDZONE], 0, fs.bs);
    assert block[..] == v0.zones[a];
    WordsArePointers(v0.zones, a, fs.bs);
    var j := 0;
    while j < ppz
      invariant 0 <= j <= ppz && fs.Mounted() && remaining == Remaining(size, fs.bs, IDZONE + j)
      invariant fresh(block) && block != fs.dev.data && block.Length == fs.bs
      invariant forall m :: j <= m < ppz ==> Word(block[..], m) == Pointer(v0.zones, a, m)
      invariant Clearing(fs, v0, fs.Vol(), HeldUpTo(fs.owner, i, IDZONE + j, false))
    {
      IndirectSlot(fs.sb, fs.bs, v0, files, fs.owner, i, j);
      HeldNext(v0.zones, ppz, files, fs.owner, i, IDZONE + j, false);
      RemainingNext(size, fs.bs, IDZONE + j);
      if Word(block[..], j) != 0 {
        remaining := remaining - (if fs.bs < remaining then fs.bs else remaining);
        var _ := fs.SetZoneAs(Word(block[..], j), false);
        ClearWord(block, j, v0.zones, a);
      }
      j := j + 1;
    }
    RemainingPastEnd(size, fs.bs, IDZONE + ppz);
    HeldAll(v0.zones, ppz, files, fs.owner, i);
    var _ := fs.SetZoneAs(f.zones[IDZONE], false);
    f := f.(zones := f.zones[IDZONE := 0]);
  }

  /** zones[j] = 0 in the buffer leaves the pointers after j alone. */
  method ClearWord(block: array<byte>, j: nat, ghost zs: Zones, ghost a: nat)
    requires 4 * j + 4 <= block.Length
    requires forall m :: j <= m < block.Length / 4 ==> Word(block[..], m) == Pointer(zs, a, m)
    modifies block
    ensures forall m :: j + 1 <= m < block.Length / 4 ==> Word(block[..], m) == Pointer(zs, a, m)
  {
    hide Word, Pointer, WithPointer;
    ghost var before := block[..];
    PutPointer(block, j, 0);
    forall m | j < m < block.Length / 4 ensures Word(block[..], m) == Word(before, m) {
      WordKept(before, j, m);
    }
  }

  lemma WordKept(b: seq<byte>, j: nat, m: nat)
    requires 4 * j + 4 <= |b| && 4 * m + 4 <= |b| && m != j
    ensures Word(WithPointer(b, j, 0), m) == Word(b, m)
  {
    SetWord(b, j, 0, m);
  }

  lemma WordsArePointers(zs: Zones, z: nat, bs: nat)
    requires z in zs && |zs[z]| == bs
    ensures forall m :: 0 <= m < bs / 4 ==> Word(zs[z], m) == Pointer(zs, z, m)
  {
  }

  lemma IndirectBlock(sb: Superblock, bs: nat, v: Volume, files: Files, owner: Owners, i: nat)
    requires Coherent(sb, bs, v, files, owner) && i in files && files[i].inode.Wf() && files[i].count > IDZONE
    ensures var a := files[i].inode.zones[IDZONE]; InZones(sb, a) && a != 0 && a in v.zones && |v.zones[a]| == bs
  {
    OwnedFile(v.zones, bs / 4, files, owner, i);
    assert Live(bs / 4, files[i].count, Ind) && IsSlot(bs / 4, Ind);
    assert SlotZone(v.zones, files[i].inode, bs / 4, Ind) == files[i].inode.zones[IDZONE];
  }

  lemma IndirectSlot(sb: Superblock, bs: nat, v: Volume, files: Files, owner: Owners, i: nat, j: nat)
    requires Coherent(sb, bs, v, files, owner) && i in files && files[i].inode.Wf() && j < bs / 4
    ensures IDZONE + j < MaxZones(bs / 4)
    ensures var z := SlotZone(v.zones, files[i].inode, bs / 4, Data(IDZONE + j));
            z == Pointer(v.zones, files[i].inode.zones[IDZONE], j) && (z in v.zones ==> InZones(sb, z))
  {
  }

  /**
   * minix3_clear_all_zones, for a file without doubly indirect zones: exactly the zones the file held are no longer
   * marked, and nothing else on the device has changed.
   */
  method ClearAllZones(fs: FileStore, f0: Inode, ghost files: Files, ghost i: nat) returns (f: Inode)
    requires fs.Mounted() && fs.bs >= 64 && fs.bs % 64 == 0 && Coherent(fs.sb, fs.bs, fs.Vol(), files, fs.owner)
    requires i in files && files[i].inode == f0 && f0.Wf() && files[i].count == Count(f0.size, fs.bs)
    requires files[i].count <= IDZONE + fs.bs / 4
    modifies fs.dev.data
    ensures fs.Mounted() && f.Wf() && forall k :: 0 <= k <= IDZONE ==> f.zones[k] == 0
    ensures fs.Vol() == old(fs.Vol()).(zoneMap := old(fs.Vol()).zoneMap - Held(fs.owner, i))
    ensures Owned(fs.Vol().zones, fs.bs / 4, files - {i}, map z | z in fs.owner && fs.owner[z].0 != i :: fs.owner[z])
  {
    hide Fits, Meaning, Count, Remaining, MaxZones, HeldUpTo, Held, Owned, SlotZone, Word, Pointer;
    ghost var v0 := fs.Vol();
    var remaining;
    f, remaining := ClearDirect(fs, f0, files, i);
    assert f.zones[IDZONE] == f.zones[IDZONE..][0] == f0.zones[IDZONE];
    HeldAll(v0.zones, fs.bs / 4, files, fs.owner, i);
    RemoveKeepsOwned(v0.zones, fs.bs / 4, files, fs.owner, i);
    NoIndirect(fs.sb, fs.bs, v0, files, fs.owner, i);
    WhenDone(f0.size, fs.bs);
    if remaining == 0 {
      return;
    }
    ghost var direct := f.zones;
    f, remaining := ClearIndirect(fs, f, remaining, files, i, v0);
  }

  lemma NoIndirect(sb: Superblock, bs: nat, v: Volume, files: Files, owner: Owners, i: nat)
    requires Coherent(sb, bs, v, files, owner) && i in files && files[i].inode.Wf()
    ensures files[i].inode.zones[IDZONE] != 0 <==> files[i].count > IDZONE
  {
    assert Dense(v.zones, files[i].inode, bs / 4, files[i].count) && IsSlot(bs / 4, Ind);
    assert SlotZone(v.zones, files[i].inode, bs / 4, Ind) == files[i].inode.zones[IDZONE];
  }

  /** Nothing remains past the direct part exactly when the file ends there. */
  lemma WhenDone(size: nat, bs: nat)
    requires bs > 0
    ensures Remaining(size, bs, IDZONE) == 0 <==> Count(size, bs) <= IDZONE
  {
    if Count(size, bs) <= IDZONE { RemainingPastEnd(size, bs, IDZONE); } else { LastZoneAt(size, bs, IDZONE); }
  }
}
