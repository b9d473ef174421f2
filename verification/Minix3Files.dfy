/**
 * Files as byte sequences over the flat zone table, and the ownership of zones across all files.
 */
module Minix3Files {
  import opened Bytes
  import opened Arith
  import opened Minix3Layout
  import opened Minix3Slots

  type Files = map<nat, File>
  type Owners = map<nat, (nat, Slot)>

  // ---- contents ------------------------------------------------------------

  function ZoneBytes(zs: Zones, z: nat): seq<byte>
  {
    if z in zs then zs[z] else []
  }

  /** The first k data zones of a file, one after the other. */
  function Content(zs: Zones, f: Inode, ppz: nat, k: nat): seq<byte>
    requires f.Wf() && ppz > 0
  {
    if k == 0 then [] else Content(zs, f, ppz, k - 1) + ZoneBytes(zs, SlotZone(zs, f, ppz, Data(k - 1)))
  }

  function Take<T>(s: seq<T>, n: nat): seq<T>
  {
    if n <= |s| then s[..n] else s
  }

  /** What a file says: its data zones in order, cut to its size. */
  function FileBytes(zs: Zones, f: Inode, bs: nat): seq<byte>
    requires f.Wf() && bs >= 4
  {
    Take(Content(zs, f, bs / 4, Count(f.size, bs)), f.size)
  }

  ghost predicate Sized(zs: Zones, bs: nat)
  {
    forall z :: z in zs ==> |zs[z]| == bs
  }

  /** The first k data zones all exist. */
  ghost predicate Present(zs: Zones, f: Inode, ppz: nat, k: nat)
    requires f.Wf() && ppz > 0
  {
    forall i :: 0 <= i < k ==> SlotZone(zs, f, ppz, Data(i)) in zs
  }

  lemma {:induction false} ContentLength(zs: Zones, f: Inode, bs: nat, k: nat)
    requires f.Wf() && bs >= 4 && Sized(zs, bs) && Present(zs, f, bs / 4, k)
    ensures |Content(zs, f, bs / 4, k)| == Times(k, bs)
  {
    if k > 0 {
      ContentLength(zs, f, bs, k - 1);
      assert SlotZone(zs, f, bs / 4, Data(k - 1)) in zs;
    }
  }

  lemma {:induction false} ContentFrame(zs: Zones, f: Inode, zs': Zones, f': Inode, ppz: nat, k: nat)
    requires f.Wf() && f'.Wf() && ppz > 0
    requires forall i :: 0 <= i < k ==>
               ZoneBytes(zs', SlotZone(zs', f', ppz, Data(i))) == ZoneBytes(zs, SlotZone(zs, f, ppz, Data(i)))
    ensures Content(zs', f', ppz, k) == Content(zs, f, ppz, k)
  {
    if k > 0 {
      ContentFrame(zs, f, zs', f', ppz, k - 1);
      assert ZoneBytes(zs', SlotZone(zs', f', ppz, Data(k - 1))) == ZoneBytes(zs, SlotZone(zs, f, ppz, Data(k - 1)));
    }
  }

  /** Byte j of a file is byte j mod bs of its data zone j / bs. */
  lemma {:induction false} ContentAt(zs: Zones, f: Inode, bs: nat, k: nat, j: nat)
    requires f.Wf() && bs >= 4 && Sized(zs, bs) && Present(zs, f, bs / 4, k) && j < Times(k, bs)
    ensures |Content(zs, f, bs / 4, k)| == Times(k, bs) && Quot(j, bs) < k
    ensures Content(zs, f, bs / 4, k)[j] == zs[SlotZone(zs, f, bs / 4, Data(Quot(j, bs)))][Rest(j, bs)]
  {
    ContentLength(zs, f, bs, k);
    ContentLength(zs, f, bs, k - 1);
    if j < Times(k - 1, bs) {
      ContentAt(zs, f, bs, k - 1, j);
    } else {
      QuotRestOf(k - 1, j - Times(k - 1, bs), bs);
    }
  }

  lemma CountBounds(size: nat, bs: nat)
    requires bs > 0
    ensures size <= Times(Count(size, bs), bs) < size + bs
    ensures Count(size, bs) == 0 <==> size == 0
  {
    QuotRest(size + bs - 1, bs);
  }

  lemma CountOf(size: nat, bs: nat, n: nat)
    requires bs > 0 && size <= Times(n, bs) < size + bs
    ensures Count(size, bs) == n
  {
    CountBounds(size, bs);
    Unique(bs, n, size + bs - 1 - Times(n, bs), Count(size, bs), size + bs - 1 - Times(Count(size, bs), bs));
  }

  lemma FileByteAt(zs: Zones, f: Inode, bs: nat, j: nat)
    requires f.Wf() && bs >= 4 && Sized(zs, bs) && Present(zs, f, bs / 4, Count(f.size, bs)) && j < f.size
    ensures |FileBytes(zs, f, bs)| == f.size && SlotZone(zs, f, bs / 4, Data(Quot(j, bs))) in zs
    ensures FileBytes(zs, f, bs)[j] == zs[SlotZone(zs, f, bs / 4, Data(Quot(j, bs)))][Rest(j, bs)]
  {
    CountBounds(f.size, bs);
    ContentAt(zs, f, bs, Count(f.size, bs), j);
  }

  // ---- ownership -------------------------------------------------------------

  ghost predicate Holds(zs: Zones, ppz: nat, files: Files, i: nat, s: Slot, z: nat)
    requires ppz > 0
  {
    && i in files && files[i].inode.Wf() && Live(ppz, files[i].count, s)
    && SlotZone(zs, files[i].inode, ppz, s) == z
  }

  /** Every file is dense, and `owner` is the inverse of "slot s of file i holds zone z". */
  ghost predicate Owned(zs: Zones, ppz: nat, files: Files, owner: Owners)
    requires ppz > 0
  {
    && (forall i :: i in files ==> Dense(zs, files[i].inode, ppz, files[i].count))
    && (forall z :: z in owner ==> z in zs && Holds(zs, ppz, files, owner[z].0, owner[z].1, z))
    && (forall i: nat, s: Slot, z: nat :: Holds(zs, ppz, files, i, s, z) ==> z in owner && owner[z] == (i, s))
  }

  /** So no zone is referenced twice, as data or as a pointer block, by one file or by two. */
  lemma ReferencedOnce(zs: Zones, ppz: nat, files: Files, owner: Owners, i: nat, s: Slot, i': nat, s': Slot, z: nat)
    requires ppz > 0 && Owned(zs, ppz, files, owner)
    requires Holds(zs, ppz, files, i, s, z) && Holds(zs, ppz, files, i', s', z)
    ensures i == i' && s == s'
  {
    assert owner[z] == (i, s);
    assert owner[z] == (i', s');
  }

  lemma OwnedFile(zs: Zones, ppz: nat, files: Files, owner: Owners, i: nat)
    requires ppz > 0 && Owned(zs, ppz, files, owner) && i in files
    ensures Dense(zs, files[i].inode, ppz, files[i].count)
    ensures Unshared(zs, files[i].inode, ppz, files[i].count)
    ensures Present(zs, files[i].inode, ppz, files[i].count)
    ensures forall s :: Live(ppz, files[i].count, s) ==>
              SlotZone(zs, files[i].inode, ppz, s) in owner && SlotZone(zs, files[i].inode, ppz, s) in zs
              && owner[SlotZone(zs, files[i].inode, ppz, s)] == (i, s)
    ensures forall z :: z !in owner ==> NotPointer(zs, files[i].inode, ppz, files[i].count, z)
  {
    var f, n := files[i].inode, files[i].count;
    forall s | Live(ppz, n, s)
      ensures SlotZone(zs, f, ppz, s) in owner && SlotZone(zs, f, ppz, s) in zs && owner[SlotZone(zs, f, ppz, s)] == (i, s)
    {
      assert Holds(zs, ppz, files, i, s, SlotZone(zs, f, ppz, s));
    }
    forall k | 0 <= k < n ensures SlotZone(zs, f, ppz, Data(k)) in zs {
      assert Live(ppz, n, Data(k));
    }
  }

  /** zs' differs from zs only in zones nobody owns and in zones file i owns. */
  ghost predicate TouchesOnly(zs: Zones, zs': Zones, owner: Owners, i: nat)
  {
    && zs'.Keys == zs.Keys
    && forall z :: z in zs && z in owner && owner[z].0 != i ==> zs'[z] == zs[z]
  }

  lemma OtherFileSame(zs: Zones, zs': Zones, ppz: nat, files: Files, owner: Owners, i: nat, j: nat)
    requires ppz > 0 && Owned(zs, ppz, files, owner) && TouchesOnly(zs, zs', owner, i) && j in files && j != i
    ensures SamePointers(zs, zs', files[j].inode, ppz, files[j].count)
    ensures Dense(zs', files[j].inode, ppz, files[j].count)
    ensures forall s :: IsSlot(ppz, s) ==> SlotZone(zs', files[j].inode, ppz, s) == SlotZone(zs, files[j].inode, ppz, s)
    ensures Content(zs', files[j].inode, ppz, files[j].count) == Content(zs, files[j].inode, ppz, files[j].count)
  {
    var f, n := files[j].inode, files[j].count;
    OwnedFile(zs, ppz, files, owner, j);
    DenseFrame(zs, zs', f, ppz, n);
    forall k | 0 <= k < n
      ensures ZoneBytes(zs', SlotZone(zs', f, ppz, Data(k))) == ZoneBytes(zs, SlotZone(zs, f, ppz, Data(k)))
    {
      assert IsSlot(ppz, Data(k)) && Live(ppz, n, Data(k));
    }
    ContentFrame(zs, f, zs', f, ppz, n);
  }

  /** The owner entries of the zones just given to file i. */
  ghost function OwnersOf(i: nat, given: map<Slot, nat>): Owners
  {
    map z | z in given.Values :: (i, var s :| s in given && given[s] == z; s)
  }

  ghost predicate Distinct(given: map<Slot, nat>)
  {
    forall s, s' :: s in given && s' in given && s != s' ==> given[s] != given[s']
  }

  /** Changing the bytes of file i's data zones, or of zones nobody owns, moves nothing. */
  lemma WriteKeepsOwned(zs: Zones, zs': Zones, ppz: nat, files: Files, owner: Owners, i: nat)
    requires ppz > 0 && Owned(zs, ppz, files, owner) && zs'.Keys == zs.Keys
    requires forall z :: z in zs && zs'[z] != zs[z] ==> z !in owner || (owner[z].0 == i && owner[z].1.Data?)
    ensures Owned(zs', ppz, files, owner) && TouchesOnly(zs, zs', owner, i)
    ensures forall j, s :: j in files && IsSlot(ppz, s) ==>
              SlotZone(zs', files[j].inode, ppz, s) == SlotZone(zs, files[j].inode, ppz, s)
  {
    forall j | j in files
      ensures Dense(zs', files[j].inode, ppz, files[j].count)
      ensures forall s :: IsSlot(ppz, s) ==> SlotZone(zs', files[j].inode, ppz, s) == SlotZone(zs, files[j].inode, ppz, s)
    {
      OwnedFile(zs, ppz, files, owner, j);
      DenseFrame(zs, zs', files[j].inode, ppz, files[j].count);
    }
    forall j, s, z ensures Holds(zs', ppz, files, j, s, z) <==> Holds(zs, ppz, files, j, s, z) {
      if j in files && Live(ppz, files[j].count, s) { LiveIsSlot(ppz, files[j].count, s); }
    }
  }

  lemma HoldsAfterGrow(zs: Zones, zs': Zones, ppz: nat, files: Files, owner: Owners, i: nat, f': Inode,
                       given: map<Slot, nat>, j: nat, s: Slot, z: nat)
    requires ppz > 0 && Owned(zs, ppz, files, owner) && i in files && files[i].count < MaxZones(ppz)
    requires Grown(zs, files[i].inode, zs', f', ppz, files[i].count, given) && TouchesOnly(zs, zs', owner, i)
    ensures Holds(zs', ppz, files[i := File(f', files[i].count + 1)], j, s, z)
       <==> Holds(zs, ppz, files, j, s, z) || (j == i && s in given && given[s] == z)
  {
    var n := files[i].count;
    if j == i {
      if Live(ppz, n, s) { LiveIsSlot(ppz, n, s); NewSlotsAreNew(ppz, n, s); }
      if Live(ppz, n + 1, s) { LiveIsSlot(ppz, n + 1, s); NewSlotsAreNew(ppz, n, s); }
      if s in given { GivenIsSlot(ppz, n, s); NewSlotsAreNew(ppz, n, s); }
    } else if j in files && Live(ppz, files[j].count, s) {
      OtherFileSame(zs, zs', ppz, files, owner, i, j);
      LiveIsSlot(ppz, files[j].count, s);
    }
  }

  /** Growing one file keeps every zone referenced exactly once. */
  lemma GrowKeepsOwned(zs: Zones, zs': Zones, ppz: nat, files: Files, owner: Owners, i: nat, f': Inode, given: map<Slot, nat>)
    requires ppz > 0 && Owned(zs, ppz, files, owner) && i in files && files[i].count < MaxZones(ppz)
    requires Grown(zs, files[i].inode, zs', f', ppz, files[i].count, given) && TouchesOnly(zs, zs', owner, i)
    requires Distinct(given) && forall s :: s in given ==> given[s] in zs && given[s] !in owner && given[s] != 0
    ensures Owned(zs', ppz, files[i := File(f', files[i].count + 1)], owner + OwnersOf(i, given))
  {
    hide Dense, Grown;
    var n := files[i].count;
    var files', owner' := files[i := File(f', n + 1)], owner + OwnersOf(i, given);
    GrownIsDense(zs, files[i].inode, zs', f', ppz, n, given);
    forall j | j in files' ensures Dense(zs', files'[j].inode, ppz, files'[j].count) {
      if j != i { OtherFileSame(zs, zs', ppz, files, owner, i, j); }
    }
    forall z | z in owner' ensures z in zs' && Holds(zs', ppz, files', owner'[z].0, owner'[z].1, z) {
      HoldsAfterGrow(zs, zs', ppz, files, owner, i, f', given, owner'[z].0, owner'[z].1, z);
    }
    forall j: nat, s: Slot, z: nat | Holds(zs', ppz, files', j, s, z) ensures z in owner' && owner'[z] == (j, s) {
      HoldsAfterGrow(zs, zs', ppz, files, owner, i, f', given, j, s, z);
    }
  }

  lemma GivenIsSlot(ppz: nat, n: nat, s: Slot)
    requires ppz > 0 && n < MaxZones(ppz) && s in NewSlots(ppz, n)
    ensures IsSlot(ppz, s)
  {
    if n >= IDZONE + ppz {
      var k, j := DoubleOf(ppz, n);
    }
  }

  /** Removing a file gives up exactly its zones. */
  lemma RemoveKeepsOwned(zs: Zones, ppz: nat, files: Files, owner: Owners, i: nat)
    requires ppz > 0 && Owned(zs, ppz, files, owner)
    ensures Owned(zs, ppz, files - {i}, map z | z in owner && owner[z].0 != i :: owner[z])
  {
    forall j, s, z ensures Holds(zs, ppz, files - {i}, j, s, z) <==> Holds(zs, ppz, files, j, s, z) && j != i { }
  }
}
