/**
 * A file as one flat table of zones (minix3_zone_walker), and who owns each zone.
 *
 * A file's pointers are named by slots: Data(i) is its i-th data zone wherever the pointer is kept, Ind and DInd
 * are the pointer blocks hanging off the inode, DIndK(k) the k-th pointer block below DInd.
 */
module Minix3Slots {
  import opened Bytes
  import opened Arith
  import opened Minix3Layout

  type Zones = map<nat, seq<byte>>

  datatype Slot = Data(i: nat) | Ind | DInd | DIndK(k: nat)

  /** An inode together with how many data zones it has. */
  datatype File = File(inode: Inode, count: nat)

  /** Number of data zones of a file of `size` bytes without holes. */
  function Count(size: nat, bs: nat): nat
    requires bs > 0
  {
    Quot(size + bs - 1, bs)
  }

  /** Data zones reachable without the triply indirect block; ppz is the number of pointers in a block. */
  function MaxZones(ppz: nat): nat { IDZONE + ppz + Times(ppz, ppz) }

  /** Pointer j of block z; a missing block or pointer reads as 0, which is no zone. */
  function Pointer(zs: Zones, z: nat, j: nat): nat
  {
    if z in zs && 4 * j + 4 <= |zs[z]| then Word(zs[z], j) else 0
  }

  function SlotZone(zs: Zones, f: Inode, ppz: nat, s: Slot): nat
    requires f.Wf() && ppz > 0
  {
    match s
    case Data(i) =>
      if i < IDZONE then f.zones[i]
      else if i < IDZONE + ppz then Pointer(zs, f.zones[IDZONE], i - IDZONE)
      else Pointer(zs, Pointer(zs, f.zones[IIDZONE], Quot(i - IDZONE - ppz, ppz)), Rest(i - IDZONE - ppz, ppz))
    case Ind => f.zones[IDZONE]
    case DInd => f.zones[IIDZONE]
    case DIndK(k) => Pointer(zs, f.zones[IIDZONE], k)
  }

  /**
   * The flat table: the first seven zones of a file are named in its inode, the next ones in the block zones[7] names,
   * and the rest in the blocks that the block zones[8] names.
   */
  lemma FlatTable(zs: Zones, f: Inode, ppz: nat, i: nat)
    requires f.Wf() && ppz > 0 && forall z :: z in zs ==> |zs[z]| >= 4 * ppz
    ensures i < 7 ==> SlotZone(zs, f, ppz, Data(i)) == f.zones[i]
    ensures 7 <= i < 7 + ppz && f.zones[7] in zs ==>
              SlotZone(zs, f, ppz, Data(i)) == U32(zs[f.zones[7]], 4 * (i - 7))
    ensures 7 + ppz <= i ==>
      var k, j := Quot(i - 7 - ppz, ppz), Rest(i - 7 - ppz, ppz);
      k < ppz && f.zones[8] in zs && U32(zs[f.zones[8]], 4 * k) in zs ==>
        SlotZone(zs, f, ppz, Data(i)) == U32(zs[U32(zs[f.zones[8]], 4 * k)], 4 * j)
  {
  }

  predicate IsSlot(ppz: nat, s: Slot)
  {
    match s
    case Data(i) => i < MaxZones(ppz)
    case DIndK(k) => k < ppz
    case _ => true
  }

  /** The slots in use by a file of n data zones. */
  predicate Live(ppz: nat, n: nat, s: Slot)
  {
    match s
    case Data(i) => i < n
    case Ind => n > IDZONE
    case DInd => n > IDZONE + ppz
    case DIndK(k) => k < ppz && n > IDZONE + ppz + Times(k, ppz)
  }

  /** A file without holes: a slot holds a zone number exactly when the file needs it. */
  ghost predicate Dense(zs: Zones, f: Inode, ppz: nat, n: nat)
    requires ppz > 0
  {
    && f.Wf() && f.zones[IIIDZONE] == 0 && n <= MaxZones(ppz) && 0 !in zs
    && forall s :: IsSlot(ppz, s) ==> (Live(ppz, n, s) <==> SlotZone(zs, f, ppz, s) != 0)
  }

  /** Every live slot is a slot. */
  lemma LiveIsSlot(ppz: nat, n: nat, s: Slot)
    requires n <= MaxZones(ppz) && Live(ppz, n, s)
    ensures IsSlot(ppz, s)
  {
  }

  /** Where the pointer to data zone i of the doubly indirect part is kept. */
  lemma DoubleAt(zs: Zones, f: Inode, ppz: nat, k: nat, j: nat)
    requires f.Wf() && k < ppz && j < ppz
    ensures var i := IDZONE + ppz + Times(k, ppz) + j;
            i < MaxZones(ppz)
            && SlotZone(zs, f, ppz, Data(i)) == Pointer(zs, SlotZone(zs, f, ppz, DIndK(k)), j)
            && Quot(i - IDZONE - ppz, ppz) == k && Rest(i - IDZONE - ppz, ppz) == j
  {
    QuotRestOf(k, j, ppz);
    TimesMono(k + 1, ppz, ppz);
  }

  /** Every index past the singly indirect part has such a place. */
  lemma DoubleOf(ppz: nat, i: nat) returns (k: nat, j: nat)
    requires ppz > 0 && IDZONE + ppz <= i < MaxZones(ppz)
    ensures k < ppz && j < ppz && i == IDZONE + ppz + Times(k, ppz) + j
    ensures k == Quot(i - IDZONE - ppz, ppz) && j == Rest(i - IDZONE - ppz, ppz)
  {
    k, j := Quot(i - IDZONE - ppz, ppz), Rest(i - IDZONE - ppz, ppz);
    QuotRest(i - IDZONE - ppz, ppz);
    TimesOrder(k, ppz, ppz);
  }

  // ---- frames ------------------------------------------------------------

  /** The pointer blocks a file of n zones uses. */
  predicate IsPointerSlot(s: Slot) { !s.Data? }

  /** Both stores hold the same bytes in every pointer block of the file. */
  ghost predicate SamePointers(zs: Zones, zs': Zones, f: Inode, ppz: nat, n: nat)
    requires f.Wf() && ppz > 0
  {
    && zs'.Keys == zs.Keys
    && forall s :: IsPointerSlot(s) && Live(ppz, n, s) && SlotZone(zs, f, ppz, s) in zs ==>
         zs'[SlotZone(zs, f, ppz, s)] == zs[SlotZone(zs, f, ppz, s)]
  }

  lemma SlotFrame(zs: Zones, zs': Zones, f: Inode, ppz: nat, n: nat, s: Slot)
    requires ppz > 0 && Dense(zs, f, ppz, n) && SamePointers(zs, zs', f, ppz, n) && IsSlot(ppz, s)
    ensures SlotZone(zs', f, ppz, s) == SlotZone(zs, f, ppz, s)
    decreases s.Data?
  {
    match s {
      case Data(i) =>
        if IDZONE <= i < IDZONE + ppz {
          assert IsSlot(ppz, Ind) && SlotZone(zs, f, ppz, Ind) == f.zones[IDZONE];
        } else if i >= IDZONE + ppz {
          var k, j := DoubleOf(ppz, i);
          SlotFrame(zs, zs', f, ppz, n, DIndK(k));
          assert IsPointerSlot(DIndK(k));
          assert SlotZone(zs, f, ppz, DIndK(k)) == Pointer(zs, f.zones[IIDZONE], k);
        }
      case DIndK(k) =>
        assert IsSlot(ppz, DInd) && SlotZone(zs, f, ppz, DInd) == f.zones[IIDZONE];
      case Ind =>
      case DInd =>
    }
  }

  lemma DenseFrame(zs: Zones, zs': Zones, f: Inode, ppz: nat, n: nat)
    requires ppz > 0 && Dense(zs, f, ppz, n) && SamePointers(zs, zs', f, ppz, n)
    ensures Dense(zs', f, ppz, n)
    ensures forall s :: IsSlot(ppz, s) ==> SlotZone(zs', f, ppz, s) == SlotZone(zs, f, ppz, s)
  {
    forall s | IsSlot(ppz, s) ensures SlotZone(zs', f, ppz, s) == SlotZone(zs, f, ppz, s) {
      SlotFrame(zs, zs', f, ppz, n, s);
    }
  }

  // ---- growing a file by one zone ----------------------------------------

  /** The slots a file of n zones starts to use when it gets its next data zone: one, two or three. */
  function NewSlots(ppz: nat, n: nat): set<Slot>
    requires ppz > 0
  {
    {Data(n)}
    + (if n == IDZONE then {Ind} else {})
    + (if n == IDZONE + ppz then {DInd} else {})
    + (if n >= IDZONE + ppz && Rest(n - IDZONE - ppz, ppz) == 0 then {DIndK(Quot(n - IDZONE - ppz, ppz))} else {})
  }

  lemma NewSlotsAreNew(ppz: nat, n: nat, s: Slot)
    requires ppz > 0 && n < MaxZones(ppz) && IsSlot(ppz, s)
    ensures Live(ppz, n + 1, s) <==> Live(ppz, n, s) || s in NewSlots(ppz, n)
    ensures s in NewSlots(ppz, n) ==> !Live(ppz, n, s)
  {
    if n >= IDZONE + ppz {
      var k, j := DoubleOf(ppz, n);
      if s.DIndK? {
        if s.k < k {
          TimesMono(s.k, k, ppz);
          TimesMono(s.k + 1, k, ppz);
        } else if s.k > k {
          TimesMono(k + 1, s.k, ppz);
        }
      }
    }
  }

  /** The file got the zones `given` in its new slots and every other slot is as it was. */
  ghost predicate Grown(zs: Zones, f: Inode, zs': Zones, f': Inode, ppz: nat, n: nat, given: map<Slot, nat>)
    requires f.Wf() && ppz > 0
  {
    && f' == f.(zones := f'.zones) && f'.Wf() && f'.zones[IIIDZONE] == f.zones[IIIDZONE]
    && zs'.Keys == zs.Keys
    && given.Keys == NewSlots(ppz, n)
    && forall s :: IsSlot(ppz, s) ==>
         SlotZone(zs', f', ppz, s) == if s in given then given[s] else SlotZone(zs, f, ppz, s)
  }

  lemma GrownIsDense(zs: Zones, f: Inode, zs': Zones, f': Inode, ppz: nat, n: nat, given: map<Slot, nat>)
    requires ppz > 0 && n < MaxZones(ppz) && Dense(zs, f, ppz, n) && Grown(zs, f, zs', f', ppz, n, given)
    requires forall s :: s in given ==> given[s] != 0
    ensures Dense(zs', f', ppz, n + 1)
  {
    forall s | IsSlot(ppz, s) ensures Live(ppz, n + 1, s) <==> SlotZone(zs', f', ppz, s) != 0 {
      NewSlotsAreNew(ppz, n, s);
    }
  }

  // The six places a new data zone's pointer can go.  A block of zeros holds no pointers.

  function Zeros(n: nat): (b: seq<byte>)
    ensures |b| == n && forall i :: 0 <= i < n ==> b[i] == 0
  {
    seq(n, i => 0)
  }

  /** The block b with pointer j set to z. */
  function WithPointer(b: seq<byte>, j: nat, z: u32): (r: seq<byte>)
    requires 4 * j + 4 <= |b|
    ensures |r| == |b|
  {
    Splice(b, 4 * j, Put32(z))
  }

  lemma PointerAfter(zs: Zones, z: nat, j: nat, v: u32, y: nat, k: nat)
    requires z in zs && 4 * j + 4 <= |zs[z]|
    ensures Pointer(zs[z := WithPointer(zs[z], j, v)], y, k)
         == if y == z && k == j then v else Pointer(zs, y, k)
  {
    if y == z && 4 * k + 4 <= |zs[z]| {
      SetWord(zs[z], j, v, k);
    }
  }

  lemma PointerAfterNew(zs: Zones, z: nat, bs: nat, v: u32, y: nat, k: nat)
    requires z in zs && bs >= 4
    ensures Pointer(zs[z := WithPointer(Zeros(bs), 0, v)], y, k)
         == if y != z then Pointer(zs, y, k) else if k == 0 then v else 0
  {
    var zeroed := zs[z := Zeros(bs)];
    assert zeroed[z := WithPointer(zeroed[z], 0, v)] == zs[z := WithPointer(Zeros(bs), 0, v)];
    PointerAfter(zeroed, z, 0, v, y, k);
  }

  /** No two pointer blocks of a file share a zone. */
  ghost predicate Unshared(zs: Zones, f: Inode, ppz: nat, n: nat)
    requires f.Wf() && ppz > 0
  {
    forall s, s' :: Live(ppz, n, s) && Live(ppz, n, s') && IsPointerSlot(s) && IsPointerSlot(s') && s != s' ==>
      SlotZone(zs, f, ppz, s) != SlotZone(zs, f, ppz, s')
  }

  /** z is none of the pointer blocks of the file. */
  ghost predicate NotPointer(zs: Zones, f: Inode, ppz: nat, n: nat, z: nat)
    requires f.Wf() && ppz > 0
  {
    forall s :: Live(ppz, n, s) && IsPointerSlot(s) ==> SlotZone(zs, f, ppz, s) != z
  }

  lemma GrowDirect(zs: Zones, f: Inode, ppz: nat, n: nat, t: u32)
    requires ppz > 0 && Dense(zs, f, ppz, n) && n < IDZONE
    ensures Grown(zs, f, zs, f.(zones := f.zones[n := t]), ppz, n, map[Data(n) := t])
  {
  }

  lemma GrowFirstIndirect(zs: Zones, f: Inode, bs: nat, a: u32, t: u32)
    requires bs >= 4 && Dense(zs, f, bs / 4, IDZONE) && a in zs
    ensures Grown(zs, f, zs[a := WithPointer(Zeros(bs), 0, t)], f.(zones := f.zones[IDZONE := a]), bs / 4, IDZONE,
                  map[Data(IDZONE) := t, Ind := a])
  {
    var ppz, f', zs' := bs / 4, f.(zones := f.zones[IDZONE := a]), zs[a := WithPointer(Zeros(bs), 0, t)];
    assert SlotZone(zs, f, ppz, Ind) == 0 && SlotZone(zs, f, ppz, DInd) == 0;
    forall s | IsSlot(ppz, s)
      ensures SlotZone(zs', f', ppz, s)
           == if s == Data(IDZONE) then t else if s == Ind then a else SlotZone(zs, f, ppz, s)
    {
      if s.Data? && IDZONE <= s.i < IDZONE + ppz {
        PointerAfterNew(zs, a, bs, t, a, s.i - IDZONE);
      }
    }
  }

  lemma GrowIndirect(zs: Zones, f: Inode, bs: nat, n: nat, t: u32)
    requires bs >= 4 && Dense(zs, f, bs / 4, n) && IDZONE < n < IDZONE + bs / 4
    requires f.zones[IDZONE] in zs && |zs[f.zones[IDZONE]]| == bs
    ensures var a := f.zones[IDZONE];
            Grown(zs, f, zs[a := WithPointer(zs[a], n - IDZONE, t)], f, bs / 4, n, map[Data(n) := t])
  {
    var ppz, a := bs / 4, f.zones[IDZONE];
    var zs' := zs[a := WithPointer(zs[a], n - IDZONE, t)];
    assert SlotZone(zs, f, ppz, DInd) == 0;
    forall s | IsSlot(ppz, s)
      ensures SlotZone(zs', f, ppz, s) == if s == Data(n) then t else SlotZone(zs, f, ppz, s)
    {
      if s.Data? && IDZONE <= s.i < IDZONE + ppz {
        PointerAfter(zs, a, n - IDZONE, t, a, s.i - IDZONE);
      }
    }
  }

  // The doubly indirect part: row k holds the pointers to data zones IDZONE + ppz + k * ppz onwards.

  function DoubleIndex(ppz: nat, k: nat, j: nat): nat { IDZONE + ppz + Times(k, ppz) + j }

  /** The pointer at place (m, i) of the doubly indirect part. */
  function Cell(zs: Zones, f: Inode, ppz: nat, m: nat, i: nat): nat
    requires f.Wf() && ppz > 0
  {
    Pointer(zs, SlotZone(zs, f, ppz, DIndK(m)), i)
  }

  lemma NewSlotsDouble(ppz: nat, k: nat, j: nat)
    requires k < ppz && j < ppz
    ensures NewSlots(ppz, DoubleIndex(ppz, k, j))
         == {Data(DoubleIndex(ppz, k, j))} + (if k == 0 && j == 0 then {DInd} else {}) + (if j == 0 then {DIndK(k)} else {})
  {
    QuotRestOf(k, j, ppz);
    if k > 0 { TimesMono(1, k, ppz); }
  }

  /** Changing one cell, and nothing in the direct and indirect parts, changes one data slot. */
  lemma OneCell(zs: Zones, f: Inode, zs': Zones, f': Inode, ppz: nat, k: nat, j: nat, t: nat, s: Slot)
    requires k < ppz && j < ppz && f.Wf() && f'.Wf() && f'.zones[..IIDZONE] == f.zones[..IIDZONE]
    requires forall i :: 0 <= i < ppz ==> Pointer(zs', f.zones[IDZONE], i) == Pointer(zs, f.zones[IDZONE], i)
    requires forall m, i :: 0 <= m < ppz && 0 <= i < ppz ==>
               Cell(zs', f', ppz, m, i) == if m == k && i == j then t else Cell(zs, f, ppz, m, i)
    requires s.Data? && IsSlot(ppz, s)
    ensures SlotZone(zs', f', ppz, s) == if s.i == DoubleIndex(ppz, k, j) then t else SlotZone(zs, f, ppz, s)
  {
    if s.i < IDZONE {
      assert f'.zones[s.i] == f'.zones[..IIDZONE][s.i];
    } else if s.i < IDZONE + ppz {
      assert f'.zones[IDZONE] == f'.zones[..IIDZONE][IDZONE] == f.zones[IDZONE];
    } else {
      var m, i := DoubleOf(ppz, s.i);
      DoubleAt(zs', f', ppz, m, i);
      DoubleAt(zs, f, ppz, m, i);
      assert Cell(zs', f', ppz, m, i) == if m == k && i == j then t else Cell(zs, f, ppz, m, i);
      if s.i == DoubleIndex(ppz, k, j) {
        Unique(ppz, m, i, k, j);
      }
    }
  }

  // A fresh doubly indirect block a and a fresh first row b.

  function FirstDouble(zs: Zones, bs: nat, a: u32, b: u32, t: u32): Zones
    requires bs >= 4
  {
    zs[a := WithPointer(Zeros(bs), 0, b)][b := WithPointer(Zeros(bs), 0, t)]
  }

  lemma FirstDoublePointer(zs: Zones, bs: nat, a: u32, b: u32, t: u32, y: nat, i: nat)
    requires bs >= 4 && a in zs && b in zs && a != b
    ensures Pointer(FirstDouble(zs, bs, a, b, t), y, i)
         == if y == a then (if i == 0 then b else 0) else if y == b then (if i == 0 then t else 0) else Pointer(zs, y, i)
  {
    PointerAfterNew(zs, a, bs, b, y, i);
    PointerAfterNew(zs[a := WithPointer(Zeros(bs), 0, b)], b, bs, t, y, i);
  }

  lemma GrowFirstDouble(zs: Zones, f: Inode, bs: nat, a: u32, b: u32, t: u32)
    requires bs >= 4 && Dense(zs, f, bs / 4, IDZONE + bs / 4) && a in zs && b in zs && a != b
    requires NotPointer(zs, f, bs / 4, IDZONE + bs / 4, a) && NotPointer(zs, f, bs / 4, IDZONE + bs / 4, b)
    ensures Grown(zs, f, FirstDouble(zs, bs, a, b, t), f.(zones := f.zones[IIDZONE := a]), bs / 4, IDZONE + bs / 4,
                  map[Data(IDZONE + bs / 4) := t, DInd := a, DIndK(0) := b])
  {
    var ppz, n, f', zs' := bs / 4, IDZONE + bs / 4, f.(zones := f.zones[IIDZONE := a]), FirstDouble(zs, bs, a, b, t);
    assert f.zones[IIDZONE] == 0 by { assert IsSlot(ppz, DInd) && SlotZone(zs, f, ppz, DInd) == f.zones[IIDZONE]; }
    assert f.zones[IDZONE] != a && f.zones[IDZONE] != b by {
      assert Live(ppz, n, Ind) && IsPointerSlot(Ind) && SlotZone(zs, f, ppz, Ind) == f.zones[IDZONE];
    }
    forall i | 0 <= i < ppz ensures Pointer(zs', f.zones[IDZONE], i) == Pointer(zs, f.zones[IDZONE], i) {
      FirstDoublePointer(zs, bs, a, b, t, f.zones[IDZONE], i);
    }
    forall m, i | 0 <= m < ppz && 0 <= i < ppz
      ensures Cell(zs', f', ppz, m, i) == if m == 0 && i == 0 then t else Cell(zs, f, ppz, m, i)
    {
      FirstDoublePointer(zs, bs, a, b, t, a, m);
      FirstDoublePointer(zs, bs, a, b, t, if m == 0 then b else 0, i);
    }
    forall s | IsSlot(ppz, s)
      ensures SlotZone(zs', f', ppz, s)
           == if s == Data(n) then t else if s == DInd then a else if s == DIndK(0) then b else SlotZone(zs, f, ppz, s)
    {
      if s.Data? {
        OneCell(zs, f, zs', f', ppz, 0, 0, t, s);
      } else if s.DIndK? {
        FirstDoublePointer(zs, bs, a, b, t, a, s.k);
      }
    }
    NewSlotsDouble(ppz, 0, 0);
  }

  // A fresh row b under the existing doubly indirect block.

  function NewRow(zs: Zones, bs: nat, a: nat, k: nat, b: u32, t: u32): Zones
    requires bs >= 4 && a in zs && 4 * k + 4 <= |zs[a]|
  {
    zs[a := WithPointer(zs[a], k, b)][b := WithPointer(Zeros(bs), 0, t)]
  }

  lemma NewRowPointer(zs: Zones, bs: nat, a: nat, k: nat, b: u32, t: u32, y: nat, i: nat)
    requires bs >= 4 && a in zs && 4 * k + 4 <= |zs[a]| && b in zs && a != b
    ensures Pointer(NewRow(zs, bs, a, k, b, t), y, i)
         == if y == b then (if i == 0 then t else 0) else if y == a && i == k then b else Pointer(zs, y, i)
  {
    PointerAfter(zs, a, k, b, y, i);
    PointerAfterNew(zs[a := WithPointer(zs[a], k, b)], b, bs, t, y, i);
  }

  /** Row m, when it exists, is none of the blocks a, b and the singly indirect block. */
  lemma RowApart(zs: Zones, f: Inode, ppz: nat, n: nat, m: nat)
    requires ppz > 0 && Dense(zs, f, ppz, n) && Unshared(zs, f, ppz, n) && n > IDZONE + ppz && m < ppz
    ensures f.zones[IDZONE] != f.zones[IIDZONE] && f.zones[IDZONE] != 0 && f.zones[IIDZONE] != 0
    ensures var r := SlotZone(zs, f, ppz, DIndK(m)); r != f.zones[IDZONE] && r != f.zones[IIDZONE]
    ensures !Live(ppz, n, DIndK(m)) ==> SlotZone(zs, f, ppz, DIndK(m)) == 0
  {
    assert Live(ppz, n, Ind) && IsPointerSlot(Ind) && SlotZone(zs, f, ppz, Ind) == f.zones[IDZONE];
    assert Live(ppz, n, DInd) && IsPointerSlot(DInd) && SlotZone(zs, f, ppz, DInd) == f.zones[IIDZONE];
    assert IsSlot(ppz, Ind) && IsSlot(ppz, DInd) && IsSlot(ppz, DIndK(m)) && IsPointerSlot(DIndK(m));
  }

  lemma GrowNewRow(zs: Zones, f: Inode, bs: nat, k: nat, b: u32, t: u32)
    requires bs >= 4 && 0 < k < bs / 4
    requires var n := DoubleIndex(bs / 4, k, 0);
             n < MaxZones(bs / 4) && Dense(zs, f, bs / 4, n)
             && NotPointer(zs, f, bs / 4, n, b) && Unshared(zs, f, bs / 4, n)
    requires f.zones[IIDZONE] in zs && |zs[f.zones[IIDZONE]]| == bs && b in zs && b != 0
    ensures Grown(zs, f, NewRow(zs, bs, f.zones[IIDZONE], k, b, t), f, bs / 4, DoubleIndex(bs / 4, k, 0),
                  map[Data(DoubleIndex(bs / 4, k, 0)) := t, DIndK(k) := b])
  {
    var ppz, a, n := bs / 4, f.zones[IIDZONE], DoubleIndex(bs / 4, k, 0);
    var zs' := NewRow(zs, bs, a, k, b, t);
    TimesMono(1, k, ppz);
    assert Live(ppz, n, DInd) && IsPointerSlot(DInd) && SlotZone(zs, f, ppz, DInd) == a;
    assert Live(ppz, n, Ind) && IsPointerSlot(Ind) && SlotZone(zs, f, ppz, Ind) == f.zones[IDZONE];
    assert a != b && f.zones[IDZONE] != b;
    RowApart(zs, f, ppz, n, k);
    forall i | 0 <= i < ppz ensures Pointer(zs', f.zones[IDZONE], i) == Pointer(zs, f.zones[IDZONE], i) {
      NewRowPointer(zs, bs, a, k, b, t, f.zones[IDZONE], i);
    }
    forall m | 0 <= m < ppz
      ensures SlotZone(zs', f, ppz, DIndK(m)) == if m == k then b else SlotZone(zs, f, ppz, DIndK(m))
    {
      NewRowPointer(zs, bs, a, k, b, t, a, m);
    }
    forall m, i | 0 <= m < ppz && 0 <= i < ppz
      ensures Cell(zs', f, ppz, m, i) == if m == k && i == 0 then t else Cell(zs, f, ppz, m, i)
    {
      var r := SlotZone(zs, f, ppz, DIndK(m));
      RowApart(zs, f, ppz, n, m);
      assert r != b by { assert IsPointerSlot(DIndK(m)); }
      NewRowPointer(zs, bs, a, k, b, t, if m == k then b else r, i);
    }
    forall s | IsSlot(ppz, s)
      ensures SlotZone(zs', f, ppz, s)
           == if s == Data(n) then t else if s == DIndK(k) then b else SlotZone(zs, f, ppz, s)
    {
      if s.Data? {
        OneCell(zs, f, zs', f, ppz, k, 0, t, s);
      }
    }
    NewSlotsDouble(ppz, k, 0);
  }

  lemma GrowRow(zs: Zones, f: Inode, bs: nat, k: nat, j: nat, t: u32)
    requires bs >= 4 && k < bs / 4 && 0 < j < bs / 4
    requires var n := DoubleIndex(bs / 4, k, j);
             n < MaxZones(bs / 4) && Dense(zs, f, bs / 4, n) && Unshared(zs, f, bs / 4, n)
    requires var b := SlotZone(zs, f, bs / 4, DIndK(k)); b in zs && |zs[b]| == bs
    ensures var n, b := DoubleIndex(bs / 4, k, j), SlotZone(zs, f, bs / 4, DIndK(k));
            Grown(zs, f, zs[b := WithPointer(zs[b], j, t)], f, bs / 4, n, map[Data(n) := t])
  {
    var ppz, b, n := bs / 4, SlotZone(zs, f, bs / 4, DIndK(k)), DoubleIndex(bs / 4, k, j);
    var zs' := zs[b := WithPointer(zs[b], j, t)];
    RowApart(zs, f, ppz, n, k);
    forall i | 0 <= i < ppz ensures Pointer(zs', f.zones[IDZONE], i) == Pointer(zs, f.zones[IDZONE], i) {
      PointerAfter(zs, b, j, t, f.zones[IDZONE], i);
    }
    forall m | 0 <= m < ppz ensures SlotZone(zs', f, ppz, DIndK(m)) == SlotZone(zs, f, ppz, DIndK(m)) {
      PointerAfter(zs, b, j, t, f.zones[IIDZONE], m);
    }
    forall m, i | 0 <= m < ppz && 0 <= i < ppz
      ensures Cell(zs', f, ppz, m, i) == if m == k && i == j then t else Cell(zs, f, ppz, m, i)
    {
      var r := SlotZone(zs, f, ppz, DIndK(m));
      RowApart(zs, f, ppz, n, m);
      assert IsPointerSlot(DIndK(m)) && IsPointerSlot(DIndK(k)) && Live(ppz, n, DIndK(k));
      assert r == b ==> m == k;
      PointerAfter(zs, b, j, t, r, i);
    }
    forall s | IsSlot(ppz, s)
      ensures SlotZone(zs', f, ppz, s) == if s == Data(n) then t else SlotZone(zs, f, ppz, s)
    {
      if s.Data? {
        OneCell(zs, f, zs', f, ppz, k, j, t, s);
      }
    }
    NewSlotsDouble(ppz, k, j);
  }
}
