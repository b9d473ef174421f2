/**
 * Sv39 page tables (mmu.c; section 4.4 of the RISC-V Privileged Architecture, version 1.12), kept in the page
 * frames of the physical memory.
 *
 * Tables are named by the number of the page frame they occupy.  `tables` says which frames are tables and where
 * in the tree each hangs; Tree ties it to the words in memory.
 */
module Mmu {
  import opened Bytes
  import opened Page

  const ENTRIES: nat := 512
  const NO_ADDRESS: u64 := 0xffff_ffff_ffff_ffff

  // ---- entries -------------------------------------------------------------------

  predicate IsValid(e: u64) { e as int % 2 == 1 }

  /** e & 0xe: some of read, write, execute. */
  predicate IsLeaf(e: u64) { e as int / 2 % 8 != 0 }

  function Vpn(v: u64, level: nat): (i: nat)
    requires level < 3
    ensures i < ENTRIES
  {
    if level == 0 then v as int / 0x1000 % 512 else if level == 1 then v as int / 0x20_0000 % 512
    else v as int / 0x4000_0000 % 512
  }

  /** ((uint64_t)table >> 2) | PTEB_VALID */
  function BranchTo(address: nat): u64
    requires address < PHYSICAL_LIMIT
  {
    address / 4 / 2 * 2 + 1
  }

  /** (entry << 2) & ~0xFFF */
  function Target(e: u64): nat
  {
    e as int * 4 % 0x1_0000_0000_0000_0000 / 0x1000 * 0x1000
  }

  /** The leaf entry mmu_set builds; the flag bits lie below bit 10. */
  function LeafEntry(address: u64, bits: nat): u64
    requires bits < 1024
  {
    address as int / 0x4000_0000 % 0x400_0000 * 0x1000_0000 + address as int / 0x20_0000 % 512 * 0x8_0000
      + address as int / 0x1000 % 512 * 0x400 + bits
  }

  /** bits | PTEB_VALID */
  function WithValid(bits: nat): (b: nat)
    ensures bits < 1024 ==> b < 1024
    ensures b % 2 == 1 && b / 2 % 8 == bits / 2 % 8
  {
    bits / 2 * 2 + 1
  }

  /** The first address of the page a is in. */
  function PageOf(a: u64): (p: u64)
    ensures p as int <= a as int < p as int + 0x1000 && p as int % 0x1000 == 0
  {
    a as int / 0x1000 * 0x1000
  }

  /** What mmu_translate makes of a leaf found at a level. */
  function LeafAddress(e: u64, v: u64, level: nat): u64
    requires level < 3
  {
    if level == 2 then e as int / 0x1000_0000 % 0x400_0000 * 0x4000_0000 + v as int % 0x4000_0000
    else if level == 1 then e as int / 0x1000_0000 % 0x400_0000 * 0x4000_0000 + e as int / 0x8_0000 % 512 * 0x20_0000
                            + v as int % 0x20_0000
    else e as int / 0x1000_0000 % 0x400_0000 * 0x4000_0000 + e as int / 0x8_0000 % 512 * 0x20_0000
         + e as int / 0x400 % 512 * 0x1000 + v as int % 0x1000
  }

  lemma BranchTarget(address: nat)
    requires address < PHYSICAL_LIMIT && address % PAGE_SIZE == 0
    ensures Target(BranchTo(address)) == address && IsValid(BranchTo(address)) && !IsLeaf(BranchTo(address))
  {
    var k := address / 0x1000;
    assert address == 0x1000 * k;
    BranchOfPage(k);
  }

  lemma BranchOfPage(k: nat)
    requires 0x1000 * k < PHYSICAL_LIMIT
    ensures BranchTo(0x1000 * k) == 0x400 * k + 1
    ensures Target(0x400 * k + 1) == 0x1000 * k && IsValid(0x400 * k + 1) && !IsLeaf(0x400 * k + 1)
  {
    hide *;
    BranchWord(k);
    TargetOfPage(k);
    FlagsOfPage(k);
  }

  lemma BranchWord(k: nat)
    requires 0x1000 * k < PHYSICAL_LIMIT
    ensures BranchTo(0x1000 * k) == 0x400 * k + 1
  {
    assert 0x1000 * k / 4 == 0x400 * k;
    assert 0x400 * k / 2 == 0x200 * k;
  }

  lemma TargetOfPage(k: nat)
    requires 0x1000 * k < PHYSICAL_LIMIT
    ensures Target(0x400 * k + 1) == 0x1000 * k
  {
    assert (0x400 * k + 1) * 4 == 0x1000 * k + 4;
  }

  lemma FlagsOfPage(k: nat)
    requires 0x1000 * k < PHYSICAL_LIMIT
    ensures IsValid(0x400 * k + 1) && !IsLeaf(0x400 * k + 1)
  {
    assert (0x400 * k + 1) / 2 == 0x200 * k;
  }

  /** An entry as its four fields. */
  lemma Fields(a: nat, b: nat, c: nat, bits: nat)
    requires a < 0x400_0000 && b < 512 && c < 512 && bits < 1024
    ensures var e := a * 0x1000_0000 + b * 0x8_0000 + c * 0x400 + bits;
            e / 0x1000_0000 == a && e / 0x8_0000 == a * 512 + b && e / 0x400 == (a * 512 + b) * 512 + c
            && e % 2 == bits % 2 && e / 2 % 8 == bits / 2 % 8
  {
    var y := (a * 512 + b) * 512 + c;
    var e := a * 0x1000_0000 + b * 0x8_0000 + c * 0x400 + bits;
    QuotientIs(e, 0x400, y, bits);
    QuotientIs(e, 0x8_0000, a * 512 + b, c * 0x400 + bits);
    QuotientIs(e, 0x1000_0000, a, b * 0x8_0000 + c * 0x400 + bits);
    LowBits(y, bits);
    assert e == y * 0x400 + bits;
  }

  lemma LowBits(y: nat, bits: nat)
    ensures (y * 0x400 + bits) % 2 == bits % 2 && (y * 0x400 + bits) / 2 % 8 == bits / 2 % 8
  {
    var k, w := bits / 16, bits % 16;
    Nibble(k, w);
    Nibble(y * 0x40 + k, w);
  }

  lemma Nibble(k: nat, w: nat)
    requires w < 16
    ensures (16 * k + w) % 2 == w % 2 && (16 * k + w) / 2 % 8 == w / 2
  {
    QuotientIs(16 * k + w, 2, 8 * k + w / 2, w % 2);
    QuotientIs(8 * k + w / 2, 8, k, w / 2);
  }

  /** An address as its three page-number digits and its offset. */
  lemma AddressFields(address: nat)
    ensures address / 0x1000 == (address / 0x4000_0000 * 512 + address / 0x20_0000 % 512) * 512 + address / 0x1000 % 512
  {
    var p := address / 0x1000;
    var q := p / 512;
    assert address / 0x20_0000 == q;
    assert address / 0x4000_0000 == q / 512;
    assert p == q * 512 + p % 512;
    assert q == q / 512 * 512 + q % 512;
  }

  function Packed(a: nat, b: nat, c: nat, bits: nat): (e: u64)
    requires a < 0x400_0000 && b < 512 && c < 512 && bits < 1024
  {
    a * 0x1000_0000 + b * 0x8_0000 + c * 0x400 + bits
  }

  lemma PackedAddress(a: nat, b: nat, c: nat, bits: nat, v: u64)
    requires a < 0x400_0000 && b < 512 && c < 512 && bits < 1024
    ensures LeafAddress(Packed(a, b, c, bits), v, 0) == ((a * 512 + b) * 512 + c) * 0x1000 + v as int % 0x1000
  {
    var e := Packed(a, b, c, bits);
    Fields(a, b, c, bits);
    assert e as int / 0x1000_0000 % 0x400_0000 == a;
    assert e as int / 0x8_0000 % 512 == b;
    assert e as int / 0x400 % 512 == c;
  }

  lemma LeafTarget(address: u64, bits: nat, v: u64)
    requires bits < 1024 && address < PHYSICAL_LIMIT
    ensures LeafAddress(LeafEntry(address, bits), v, 0) == address as int / 0x1000 * 0x1000 + v as int % 0x1000
    ensures IsValid(LeafEntry(address, bits)) <==> bits % 2 == 1
    ensures IsLeaf(LeafEntry(address, bits)) <==> bits / 2 % 8 != 0
  {
    hide LeafAddress;
    var a: nat, b: nat, c: nat := address as int / 0x4000_0000, address as int / 0x20_0000 % 512, address as int / 0x1000 % 512;
    assert a < 0x400_0000;
    Fields(a, b, c, bits);
    AddressFields(address);
    PackedAddress(a, b, c, bits, v);
    assert LeafEntry(address, bits) == Packed(a, b, c, bits);
  }

  /** Leaves above level 0 keep the offset inside their 2 MB or 1 GB. */
  lemma SuperTarget(a: nat, b: nat, c: nat, bits: nat, v: u64)
    requires a < 0x400_0000 && b < 512 && c < 512 && bits < 1024
    ensures a * 0x1000_0000 + b * 0x8_0000 + c * 0x400 + bits < 0x1_0000_0000_0000_0000
    ensures var e := a * 0x1000_0000 + b * 0x8_0000 + c * 0x400 + bits;
            && LeafAddress(e, v, 2) == a * 0x4000_0000 + v as int % 0x4000_0000
            && LeafAddress(e, v, 1) == (a * 512 + b) * 0x20_0000 + v as int % 0x20_0000
  {
    Fields(a, b, c, bits);
    var e := a * 0x1000_0000 + b * 0x8_0000 + c * 0x400 + bits;
    assert e / 0x1000_0000 % 0x400_0000 == a;
    assert e / 0x8_0000 % 512 == b;
  }

  /** An entry mmu_map makes: the page's frame number from bit 10 on, below it the flags asked for, and the valid bit. */
  lemma EntryFlags(address: u64, bits: nat)
    requires bits < 1024 && address < PHYSICAL_LIMIT
    ensures var e := LeafEntry(address, WithValid(bits)) as int;
            e % 2 == 1 && e % 1024 / 2 == bits / 2 && e / 1024 == address as int / 4096
  {
    var a: nat, b: nat, c: nat := address as int / 0x4000_0000, address as int / 0x20_0000 % 512, address as int / 0x1000 % 512;
    assert a < 0x400_0000;
    Fields(a, b, c, WithValid(bits));
    AddressFields(address);
    var y := (a * 512 + b) * 512 + c;
    assert LeafEntry(address, WithValid(bits)) as int == y * 1024 + WithValid(bits);
  }

  // ---- the tree ------------------------------------------------------------------

  datatype Path = Root | Mid(i: nat) | Low(i: nat, j: nat)

  type Tables = map<nat, Path>

  /** The paths of all tables. */
  ghost function PathsOf(tables: Tables): set<Path>
  {
    tables.Values
  }

  predicate IsPath(h: Path)
  {
    match h case Root => true case Mid(i) => i < ENTRIES case Low(i, j) => i < ENTRIES && j < ENTRIES
  }

  function Below(h: Path, i: nat): Path
    requires !h.Low?
  {
    if h.Root? then Mid(i) else Low(h.i, i)
  }

  /** pt->entries[i] of the table in frame p. */
  function Entry(mem: seq<u64>, p: nat, i: nat): u64
  {
    if p * PAGE_WORDS + i < |mem| then mem[p * PAGE_WORDS + i] else 0
  }

  /** The frame a branch entry points at; fb is the address of frame 0. */
  function Child(fb: nat, e: u64): nat
  {
    if Target(e) >= fb then (Target(e) - fb) / PAGE_SIZE else 0
  }

  ghost predicate IsBranch(fb: nat, e: u64, q: nat)
  {
    IsValid(e) && !IsLeaf(e) && Child(fb, e) == q && Target(e) == fb + q * PAGE_SIZE
  }

  /** The entry that makes frame p the table it is. */
  ghost predicate HungFrom(mem: seq<u64>, fb: nat, root: nat, h: Path, p: nat)
  {
    match h
    case Root => p == root
    case Mid(i) => IsBranch(fb, Entry(mem, root, i), p)
    case Low(i, j) =>
      IsValid(Entry(mem, root, i)) && IsBranch(fb, Entry(mem, Child(fb, Entry(mem, root, i)), j), p)
  }

  /** The frames in `tables` form an unshared tree without superpages under root. */
  ghost predicate Tree(mem: seq<u64>, fb: nat, root: nat, tables: Tables)
  {
    && root in tables && tables[root] == Root
    && (forall p :: p in tables ==>
          IsPath(tables[p]) && (p + 1) * PAGE_WORDS <= |mem| && HungFrom(mem, fb, root, tables[p], p))
    && (forall p, i :: p in tables && 0 <= i < ENTRIES && IsValid(Entry(mem, p, i)) ==>
          if tables[p].Low? then IsLeaf(Entry(mem, p, i))
          else Child(fb, Entry(mem, p, i)) in tables && tables[Child(fb, Entry(mem, p, i))] == Below(tables[p], i)
               && IsBranch(fb, Entry(mem, p, i), Child(fb, Entry(mem, p, i))))
  }

  /** The level-0 entry for a virtual address, 0 when a table on the way is missing. */
  function PteAt(mem: seq<u64>, fb: nat, root: nat, v: u64): u64
  {
    var e2 := Entry(mem, root, Vpn(v, 2));
    if !IsValid(e2) then 0 else
    var e1 := Entry(mem, Child(fb, e2), Vpn(v, 1));
    if !IsValid(e1) then 0 else Entry(mem, Child(fb, e1), Vpn(v, 0))
  }

  /** mmu_translate from a table at a level. */
  function Walk(mem: seq<u64>, fb: nat, p: nat, v: u64, level: nat): u64
    requires level < 3
    decreases level
  {
    var e := Entry(mem, p, Vpn(v, level));
    if !IsValid(e) then NO_ADDRESS
    else if IsLeaf(e) then LeafAddress(e, v, level)
    else if level == 0 then NO_ADDRESS
    else Walk(mem, fb, Child(fb, e), v, level - 1)
  }

  function Translate(mem: seq<u64>, fb: nat, root: nat, v: u64): u64
  {
    Walk(mem, fb, root, v, 2)
  }

  /** In a tree, translation is a lookup of the level-0 entry. */
  lemma TranslateIsLookup(mem: seq<u64>, fb: nat, root: nat, tables: Tables, v: u64)
    requires Tree(mem, fb, root, tables)
    ensures var e := PteAt(mem, fb, root, v);
            Translate(mem, fb, root, v) == if IsValid(e) then LeafAddress(e, v, 0) else NO_ADDRESS
    ensures IsValid(PteAt(mem, fb, root, v)) ==> IsLeaf(PteAt(mem, fb, root, v))
  {
    hide LeafAddress, Vpn, Target;
    var e2 := Entry(mem, root, Vpn(v, 2));
    if IsValid(e2) {
      var mid := Child(fb, e2);
      var e1 := Entry(mem, mid, Vpn(v, 1));
      assert mid in tables && tables[mid] == Mid(Vpn(v, 2));
      if IsValid(e1) {
        var low := Child(fb, e1);
        assert low in tables && tables[low].Low?;
        assert Walk(mem, fb, root, v, 2) == Walk(mem, fb, mid, v, 1) == Walk(mem, fb, low, v, 0);
      }
    }
  }

  /** The walk, word for word: bits 30 to 38, 21 to 29 and 12 to 20 of v index the three tables. */
  lemma Sv39Walk(mem: seq<u64>, fb: nat, root: nat, tables: Tables, v: u64) returns (mid: nat, low: nat)
    requires Tree(mem, fb, root, tables) && PteAt(mem, fb, root, v) as int % 2 == 1
    ensures (root + 1) * 512 <= |mem| && (mid + 1) * 512 <= |mem| && (low + 1) * 512 <= |mem|
    ensures var e2, e1 := mem[root * 512 + v as int / 0x4000_0000 % 512], mem[mid * 512 + v as int / 0x20_0000 % 512];
            && e2 as int % 16 == 1 && e2 as int / 1024 % 0x10_0000_0000_0000 * 4096 == fb + mid * 4096
            && e1 as int % 16 == 1 && e1 as int / 1024 % 0x10_0000_0000_0000 * 4096 == fb + low * 4096
            && PteAt(mem, fb, root, v) == mem[low * 512 + v as int / 0x1000 % 512]
  {
    hide Target;
    var e2 := Entry(mem, root, Vpn(v, 2));
    mid := Child(fb, e2);
    assert mid in tables && tables[mid] == Mid(Vpn(v, 2)) && IsBranch(fb, e2, mid);
    var e1 := Entry(mem, mid, Vpn(v, 1));
    low := Child(fb, e1);
    assert low in tables && IsBranch(fb, e1, low);
    TargetIs(e2);
    TargetIs(e1);
  }

  lemma TargetIs(e: u64)
    ensures Target(e) == e as int / 1024 % 0x10_0000_0000_0000 * 4096
    ensures IsValid(e) && !IsLeaf(e) ==> e as int % 16 == 1
  {
    var high, low := e as int / 0x4000_0000_0000_0000, e as int % 0x4000_0000_0000_0000;
    var frame, rest := low / 1024, low % 1024;
    assert e as int * 4 == 0x1_0000_0000_0000_0000 * high + (4096 * frame + 4 * rest);
    assert e as int == 1024 * (0x10_0000_0000_0000 * high + frame) + rest;
    TargetParts(e, high, frame, rest);
    FlagBits(e);
  }

  lemma TargetParts(e: u64, high: nat, frame: nat, rest: nat)
    requires rest < 1024 && frame < 0x10_0000_0000_0000
    requires e as int == 1024 * (0x10_0000_0000_0000 * high + frame) + rest
    ensures Target(e) == frame * 4096 && e as int / 1024 % 0x10_0000_0000_0000 == frame
  {
    assert e as int * 4 == 0x1_0000_0000_0000_0000 * high + (4096 * frame + 4 * rest);
    assert e as int * 4 % 0x1_0000_0000_0000_0000 == 4096 * frame + 4 * rest;
    assert e as int / 1024 == 0x10_0000_0000_0000 * high + frame;
  }

  lemma FlagBits(e: u64)
    ensures IsValid(e) && !IsLeaf(e) ==> e as int % 16 == 1
  {
  }

  /** Two addresses the page table cannot tell apart: the same page modulo 2^39. */
  predicate SamePage(u: u64, v: u64)
  {
    Vpn(u, 0) == Vpn(v, 0) && Vpn(u, 1) == Vpn(v, 1) && Vpn(u, 2) == Vpn(v, 2)
  }

  lemma SamePageIs(u: u64, v: u64)
    ensures SamePage(u, v) <==> u as int / 0x1000 % 0x800_0000 == v as int / 0x1000 % 0x800_0000
  {
    PageDigits(u);
    PageDigits(v);
  }

  lemma PageDigits(v: u64)
    ensures v as int / 0x1000 % 0x800_0000 == (Vpn(v, 2) * 512 + Vpn(v, 1)) * 512 + Vpn(v, 0)
  {
    var p, off := v as int / 0x1000, v as int % 0x1000;
    var q, c := p / 512, p % 512;
    var s, b := q / 512, q % 512;
    var t, a := s / 512, s % 512;
    QuotientIs(v, 0x20_0000, q, 0x1000 * c + off);
    QuotientIs(v, 0x4000_0000, s, 0x20_0000 * b + 0x1000 * c + off);
    QuotientIs(p, 0x800_0000, t, (a * 512 + b) * 512 + c);
  }

  // ---- what a write to a table does -----------------------------------------------

  /** Memory with one entry of frame p rewritten. */
  function WithEntry(mem: seq<u64>, p: nat, i: nat, e: u64): seq<u64>
    requires p * PAGE_WORDS + i < |mem|
  {
    mem[p * PAGE_WORDS + i := e]
  }

  lemma EntryAfter(mem: seq<u64>, p: nat, i: nat, e: u64, q: nat, j: nat)
    requires i < ENTRIES && j < ENTRIES && p * PAGE_WORDS + i < |mem|
    ensures Entry(WithEntry(mem, p, i, e), q, j) == if q == p && j == i then e else Entry(mem, q, j)
  {
  }

  /** Words outside the tables do not matter. */
  lemma ForeignWrite(mem: seq<u64>, mem': seq<u64>, fb: nat, root: nat, tables: Tables)
    requires Tree(mem, fb, root, tables) && |mem'| == |mem|
    requires forall p, i :: p in tables && 0 <= i < ENTRIES ==> Entry(mem', p, i) == Entry(mem, p, i)
    ensures Tree(mem', fb, root, tables)
    ensures forall v :: PteAt(mem', fb, root, v) == PteAt(mem, fb, root, v)
  {
    hide Vpn, Target, IsLeaf, IsValid;
    forall p | p in tables ensures HungFrom(mem', fb, root, tables[p], p) {
      assert HungFrom(mem, fb, root, tables[p], p);
    }
    forall v: u64 ensures PteAt(mem', fb, root, v) == PteAt(mem, fb, root, v) { }
  }

  /** Writing a leaf, or nothing, into a lowest-level table leaves the tree as it is. */
  lemma LeafTree(mem: seq<u64>, fb: nat, root: nat, tables: Tables, low: nat, k: nat, e: u64)
    requires Tree(mem, fb, root, tables) && (IsValid(e) ==> IsLeaf(e))
    requires low in tables && tables[low].Low? && k < ENTRIES && low * PAGE_WORDS + k < |mem|
    ensures Tree(WithEntry(mem, low, k, e), fb, root, tables)
    ensures forall p, i :: 0 <= p && 0 <= i < ENTRIES ==>
              Entry(WithEntry(mem, low, k, e), p, i) == if p == low && i == k then e else Entry(mem, p, i)
  {
    hide Vpn, Target, IsLeaf, IsValid;
    var mem' := WithEntry(mem, low, k, e);
    forall p, i | 0 <= p && 0 <= i < ENTRIES
      ensures Entry(mem', p, i) == if p == low && i == k then e else Entry(mem, p, i)
    {
      EntryAfter(mem, low, k, e, p, i);
    }
    forall p | p in tables ensures HungFrom(mem', fb, root, tables[p], p) {
      assert HungFrom(mem, fb, root, tables[p], p);
    }
  }

  /** It changes the lookup of one page only. */
  lemma LeafWritten(mem: seq<u64>, fb: nat, root: nat, tables: Tables, v: u64, low: nat, e: u64)
    requires Tree(mem, fb, root, tables) && (IsValid(e) ==> IsLeaf(e))
    requires low in tables && tables[low] == Low(Vpn(v, 2), Vpn(v, 1)) && low * PAGE_WORDS + Vpn(v, 0) < |mem|
    ensures Tree(WithEntry(mem, low, Vpn(v, 0), e), fb, root, tables)
    ensures forall u :: PteAt(WithEntry(mem, low, Vpn(v, 0), e), fb, root, u)
                        == if SamePage(u, v) then e else PteAt(mem, fb, root, u)
  {
    hide Vpn, Target, IsLeaf, IsValid, Entry, WithEntry;
    LeafTree(mem, fb, root, tables, low, Vpn(v, 0), e);
    var mem' := WithEntry(mem, low, Vpn(v, 0), e);
    assert HungFrom(mem, fb, root, tables[low], low);
    forall u: u64 ensures PteAt(mem', fb, root, u) == if SamePage(u, v) then e else PteAt(mem, fb, root, u) {
      var e2 := Entry(mem, root, Vpn(u, 2));
      if IsValid(e2) {
        var e1 := Entry(mem, Child(fb, e2), Vpn(u, 1));
        if IsValid(e1) {
          assert tables[Child(fb, e1)] == Low(Vpn(u, 2), Vpn(u, 1));
        }
      }
    }
  }

  lemma BranchHung(fb: nat, q: nat)
    requires fb % PAGE_SIZE == 0 && fb + q * PAGE_SIZE < PHYSICAL_LIMIT
    ensures IsBranch(fb, BranchTo(fb + q * PAGE_SIZE), q) && !IsValid(0)
  {
    hide Target, BranchTo, IsLeaf;
    BranchTarget(fb + q * PAGE_SIZE);
  }

  /** Hanging an empty table in an invalid entry changes no lookup. */
  lemma TableHung(mem: seq<u64>, fb: nat, root: nat, tables: Tables, p: nat, i: nat, q: nat)
    requires Tree(mem, fb, root, tables) && p in tables && !tables[p].Low? && i < ENTRIES && !IsValid(Entry(mem, p, i))
    requires q !in tables && (q + 1) * PAGE_WORDS <= |mem| && fb % PAGE_SIZE == 0 && fb + q * PAGE_SIZE < PHYSICAL_LIMIT
    requires forall j :: 0 <= j < ENTRIES ==> Entry(mem, q, j) == 0
    requires p * PAGE_WORDS + i < |mem|
    ensures var mem' := WithEntry(mem, p, i, BranchTo(fb + q * PAGE_SIZE));
            Tree(mem', fb, root, tables[q := Below(tables[p], i)])
            && forall v :: PteAt(mem', fb, root, v) == PteAt(mem, fb, root, v)
  {
    hide Vpn, Target, IsLeaf, BranchTo, Child, IsValid;
    var e := BranchTo(fb + q * PAGE_SIZE);
    var mem', tables' := WithEntry(mem, p, i, e), tables[q := Below(tables[p], i)];
    BranchHung(fb, q);
    forall r, j | 0 <= r && 0 <= j < ENTRIES
      ensures Entry(mem', r, j) == if r == p && j == i then e else Entry(mem, r, j)
    {
      EntryAfter(mem, p, i, e, r, j);
    }
    forall r | r in tables' ensures HungFrom(mem', fb, root, tables'[r], r) {
      HungFromKept(mem, fb, root, tables, p, i, e, mem', if r == q then p else r);
    }
    forall r, j | r in tables' && 0 <= j < ENTRIES && IsValid(Entry(mem', r, j))
      ensures if tables'[r].Low? then IsLeaf(Entry(mem', r, j))
              else Child(fb, Entry(mem', r, j)) in tables' && tables'[Child(fb, Entry(mem', r, j))] == Below(tables'[r], j)
                   && IsBranch(fb, Entry(mem', r, j), Child(fb, Entry(mem', r, j)))
    {
    }
    forall v: u64 ensures PteAt(mem', fb, root, v) == PteAt(mem, fb, root, v) {
      LookupKept(mem, fb, root, tables, p, i, q, mem', v);
    }
  }

  lemma HungFromKept(mem: seq<u64>, fb: nat, root: nat, tables: Tables, p: nat, i: nat, e: u64, mem': seq<u64>, r: nat)
    requires Tree(mem, fb, root, tables) && p in tables && i < ENTRIES && !IsValid(Entry(mem, p, i)) && r in tables
    requires forall s, j :: 0 <= s && 0 <= j < ENTRIES ==> Entry(mem', s, j) == if s == p && j == i then e else Entry(mem, s, j)
    ensures HungFrom(mem', fb, root, tables[r], r)
    ensures tables[r].Mid? ==> IsValid(Entry(mem', root, tables[r].i)) && Child(fb, Entry(mem', root, tables[r].i)) == r
  {
    hide Vpn, Target, IsLeaf;
    assert HungFrom(mem, fb, root, tables[r], r);
  }

  lemma LookupKept(mem: seq<u64>, fb: nat, root: nat, tables: Tables, p: nat, i: nat, q: nat, mem': seq<u64>, v: u64)
    requires Tree(mem, fb, root, tables) && p in tables && !tables[p].Low? && i < ENTRIES && !IsValid(Entry(mem, p, i))
    requires q !in tables && forall j :: 0 <= j < ENTRIES ==> Entry(mem, q, j) == 0
    requires IsValid(Entry(mem', p, i)) && Child(fb, Entry(mem', p, i)) == q
    requires forall s, j :: 0 <= s && 0 <= j < ENTRIES && !(s == p && j == i) ==> Entry(mem', s, j) == Entry(mem, s, j)
    ensures PteAt(mem', fb, root, v) == PteAt(mem, fb, root, v)
  {
    hide Target, IsLeaf;
    assert !IsValid(0);
    var e2 := Entry(mem, root, Vpn(v, 2));
    if IsValid(e2) {
      assert Child(fb, e2) in tables;
      var e1 := Entry(mem, Child(fb, e2), Vpn(v, 1));
      if IsValid(e1) {
        assert Child(fb, e1) in tables && tables[Child(fb, e1)].Low?;
      }
    }
  }

  // ---- the tables in the page allocator ---------------------------------------------

  /** Every table occupies a page of its own: a taken run of one page, inside the heap. */
  ghost predicate Held(r: Runs, usable: nat, tables: Tables)
  {
    forall p :: p in tables ==>
      1 <= p < usable && p in r.taken && p in r.last && (p - 1 in r.taken ==> p - 1 in r.last)
  }

  /** Page numbers page_zalloc can still give out. */
  ghost function FreePages(r: Runs, total: nat): set<nat>
  {
    set i | 0 <= i < total / 10 && i !in r.taken
  }

  /** The tables a walk to v goes through, besides the root. */
  function PathsTo(v: u64): set<Path>
  {
    {Mid(Vpn(v, 2)), Low(Vpn(v, 2), Vpn(v, 1))}
  }

  /** The state of a kernel with a page table: memory, allocator and table tree fit together. */
  ghost predicate Mapped(ram: Ram, root: nat, tables: Tables)
    reads ram.words, ram.book
  {
    && ram.Valid() && WellFormed(ram.State()) && 0 in ram.State().taken
    && Tree(ram.Memory(), ram.FrameBase(), root, tables)
    && Held(ram.State(), ram.Usable(), tables)
  }

  /** mmu_translate: at most three loads, from the root down. */
  method MmuTranslate(ram: Ram, pt: nat, v: u64, ghost root: nat, ghost tables: Tables) returns (address: u64)
    requires Mapped(ram, root, tables) && pt == ram.Frame(root)
    ensures address == Translate(ram.Memory(), ram.FrameBase(), root, v)
  {
    hide Vpn, Target, IsLeaf, IsValid, LeafAddress, Held, WellFormed, RunsOf;
    var table := pt;
    ghost var p := root;
    ghost var fb := ram.FrameBase();
    var i := 2;
    while i >= 0
      invariant -1 <= i <= 2 && table == ram.Frame(p)
      invariant i >= 0 ==> p in tables && Walk(ram.Memory(), fb, p, v, i) == Translate(ram.Memory(), fb, root, v)
      invariant i >= 0 ==> tables[p] == (if i == 2 then Root else if i == 1 then Mid(Vpn(v, 2)) else Low(Vpn(v, 2), Vpn(v, 1)))
      invariant i == -1 ==> Translate(ram.Memory(), fb, root, v) == NO_ADDRESS
    {
      var entry := ReadEntry(ram, table, Vpn(v, i), p);
      if !IsValid(entry) {
        return NO_ADDRESS;
      } else if IsLeaf(entry) {
        return LeafAddress(entry, v, i);
      }
      table := Target(entry);
      p := Child(fb, entry);
      i := i - 1;
    }
    return NO_ADDRESS;
  }

  /** pt->entries[i] */
  method ReadEntry(ram: Ram, pt: nat, i: nat, ghost p: nat) returns (e: u64)
    requires ram.Valid() && pt == ram.Frame(p) && i < ENTRIES && (p + 1) * PAGE_WORDS <= ram.words.Length
    ensures e == Entry(ram.Memory(), p, i)
  {
    e := ram.words[(pt - ram.FrameBase()) / 8 + i];
  }

  method WriteEntry(ram: Ram, pt: nat, i: nat, e: u64, ghost p: nat)
    requires ram.Valid() && pt == ram.Frame(p) && i < ENTRIES && (p + 1) * PAGE_WORDS <= ram.words.Length
    modifies ram.words
    ensures ram.Memory() == WithEntry(old(ram.Memory()), p, i, e)
  {
    ram.words[(pt - ram.FrameBase()) / 8 + i] := e;
  }

  lemma LowestExists(r: Runs, total: nat)
    requires FreePages(r, total) != {}
    ensures exists k: nat :: LowestRun(r, total, 1, k)
  {
    var i :| i in FreePages(r, total);
    LowestBelow(r, total, i);
  }

  lemma {:induction false} LowestBelow(r: Runs, total: nat, i: nat)
    requires i < total / 10 && FreeRun(r, total, i, 1)
    ensures exists k: nat :: LowestRun(r, total, 1, k)
    decreases i
  {
    if k: nat :| k < i && FreeRun(r, total, k, 1) {
      LowestBelow(r, total, k);
    } else {
      assert LowestRun(r, total, 1, i);
    }
  }

  /** A new, empty table hung in entry i of table p; the page comes from page_zalloc. */
  method HangTable(ram: Ram, pt: nat, i: nat, ghost p: nat, ghost root: nat, ghost tables: Tables)
    returns (entry: u64, ghost tables': Tables, ghost q: nat)
    requires Mapped(ram, root, tables) && p in tables && !tables[p].Low? && i < ENTRIES && pt == ram.Frame(p)
    requires !IsValid(Entry(ram.Memory(), p, i)) && FreePages(ram.State(), ram.total) != {}
    modifies ram.words, ram.book
    ensures Mapped(ram, root, tables') && q in old(FreePages(ram.State(), ram.total)) && q !in tables
    ensures tables' == tables[q := Below(tables[p], i)] && ram.State() == Allocate(old(ram.State()), q, 1)
    ensures FreePages(ram.State(), ram.total) == old(FreePages(ram.State(), ram.total)) - {q}
    ensures forall v :: PteAt(ram.Memory(), ram.FrameBase(), root, v) == old(PteAt(ram.Memory(), ram.FrameBase(), root, v))
    ensures entry == Entry(ram.Memory(), p, i) && IsBranch(ram.FrameBase(), entry, q)
    ensures |ram.Memory()| == |old(ram.Memory())|
    ensures forall w :: 0 <= w < |ram.Memory()| && w / PAGE_WORDS !in tables && w / PAGE_WORDS != q ==>
              ram.Memory()[w] == old(ram.Memory())[w]
  {
    hide Tree, Held, WellFormed, RunsOf, IsValid, IsLeaf, Target, BranchTo, Vpn, PteAt, FreePages, LowestRun, Allocate, FreeRun,
      HungFrom, IsPath, Child, Entry, PathsOf, Bit, IsBranch, WithEntry;
    ghost var mem, r, fb := ram.Memory(), ram.State(), ram.FrameBase();
    LowestExists(r, ram.total);
    UsableEnough(ram);
    assert forall k: nat :: LowestRun(r, ram.total, 1, k) ==> k + 1 <= ram.Usable() by { LowestIsLow(r, ram.total, 1); }
    var address;
    address, q := ram.PageZnalloc(1);
    LowestIsFree(r, ram.total, q);
    FreeIsNoTable(r, ram.Usable(), tables, q);
    TableInMemory(mem, fb, root, tables, p);
    PageGiven(mem, ram.Memory(), fb, root, tables, q);
    entry := BranchTo(address);
    TableHung(ram.Memory(), fb, root, tables, p, i, q);
    BranchHung(fb, q);
    HeldAfter(r, ram.Usable(), tables, q, Below(tables[p], i));
    FreeAfter(r, ram.total, q);
    AllocateKeeps(r, ram.total, q, 1);
    ghost var mem1 := ram.Memory();
    WriteEntry(ram, pt, i, entry, p);
    EntryAfter(mem1, p, i, entry, p, i);
    WordsKept(mem, mem1, tables, p, i, entry, q);
    tables' := tables[q := Below(tables[p], i)];
  }

  lemma WordsKept(mem: seq<u64>, mem1: seq<u64>, tables: Tables, p: nat, i: nat, e: u64, q: nat)
    requires |mem1| == |mem| && p in tables && i < ENTRIES && p * PAGE_WORDS + i < |mem|
    requires forall w :: 0 <= w < |mem| ==> mem1[w] == if q * PAGE_WORDS <= w < (q + 1) * PAGE_WORDS then 0 else mem[w]
    ensures |WithEntry(mem1, p, i, e)| == |mem|
    ensures forall w :: 0 <= w < |mem| && w / PAGE_WORDS !in tables && w / PAGE_WORDS != q ==>
              WithEntry(mem1, p, i, e)[w] == mem[w]
  {
    EntryInPage(p, i);
  }

  lemma LowestIsLow(r: Runs, total: nat, n: nat)
    ensures forall k: nat :: LowestRun(r, total, n, k) ==> k < total / 10 && FreeRun(r, total, k, n)
  {
  }

  lemma LowestIsFree(r: Runs, total: nat, q: nat)
    requires LowestRun(r, total, 1, q)
    ensures q in FreePages(r, total) && q !in r.taken && FreeRun(r, total, q, 1)
    ensures r.taken <= Allocate(r, q, 1).taken
  {
    assert q in Range(q, q + 1);
  }

  lemma FreeIsNoTable(r: Runs, usable: nat, tables: Tables, q: nat)
    requires Held(r, usable, tables) && q !in r.taken
    ensures q !in tables
  {
  }

  lemma TableInMemory(mem: seq<u64>, fb: nat, root: nat, tables: Tables, p: nat)
    requires Tree(mem, fb, root, tables) && p in tables
    ensures (p + 1) * PAGE_WORDS <= |mem| && IsPath(tables[p]) && HungFrom(mem, fb, root, tables[p], p)
    ensures root in tables && tables[root] == Root
  {
  }

  /** Zeroing a page that is no table. */
  lemma PageGiven(mem: seq<u64>, mem': seq<u64>, fb: nat, root: nat, tables: Tables, q: nat)
    requires Tree(mem, fb, root, tables) && q !in tables && |mem'| == |mem|
    requires forall w :: 0 <= w < |mem| ==>
               mem'[w] == if q * PAGE_WORDS <= w < (q + 1) * PAGE_WORDS then 0 else mem[w]
    ensures Tree(mem', fb, root, tables) && forall v :: PteAt(mem', fb, root, v) == PteAt(mem, fb, root, v)
    ensures forall p, i :: p in tables && 0 <= i < ENTRIES ==> Entry(mem', p, i) == Entry(mem, p, i)
    ensures forall j :: 0 <= j < ENTRIES ==> Entry(mem', q, j) == 0
  {
    hide Tree, PteAt, Entry;
    forall p, i | p in tables && 0 <= i < ENTRIES ensures Entry(mem', p, i) == Entry(mem, p, i) {
      TableInMemory(mem, fb, root, tables, p);
      EntryOfPage(mem, p, i);
      EntryOfPage(mem', p, i);
    }
    ForeignWrite(mem, mem', fb, root, tables);
    forall j | 0 <= j < ENTRIES ensures Entry(mem', q, j) == 0 {
      EntryOfNew(mem', q, j);
    }
  }

  lemma EntryOfPage(mem: seq<u64>, p: nat, i: nat)
    requires (p + 1) * PAGE_WORDS <= |mem| && i < ENTRIES
    ensures p * PAGE_WORDS <= p * PAGE_WORDS + i < (p + 1) * PAGE_WORDS
    ensures Entry(mem, p, i) == mem[p * PAGE_WORDS + i]
  {
  }

  lemma EntryOfNew(mem: seq<u64>, q: nat, j: nat)
    requires j < ENTRIES && forall w :: q * PAGE_WORDS <= w < (q + 1) * PAGE_WORDS && w < |mem| ==> mem[w] == 0
    ensures Entry(mem, q, j) == 0
  {
  }

  lemma HeldAfter(r: Runs, usable: nat, tables: Tables, q: nat, h: Path)
    requires WellFormed(r) && Held(r, usable, tables) && q !in r.taken && 1 <= q < usable
    ensures Held(Allocate(r, q, 1), usable, tables[q := h])
  {
    assert q in Range(q, q + 1);
  }

  lemma FreeAfter(r: Runs, total: nat, q: nat)
    requires q in FreePages(r, total)
    ensures FreePages(Allocate(r, q, 1), total) == FreePages(r, total) - {q}
  {
    assert Range(q, q + 1) == {q};
  }

  /** The heap ends far above the part new runs may start in. */
  lemma UsableEnough(ram: Ram)
    requires ram.Valid()
    ensures ram.total / 10 < ram.Usable()
  {
  }

  /** A path is in use exactly when the entry that would lead to it is valid. */
  lemma PathInUse(mem: seq<u64>, fb: nat, root: nat, tables: Tables, p: nat, i: nat)
    requires Tree(mem, fb, root, tables) && p in tables && !tables[p].Low? && i < ENTRIES
    ensures IsValid(Entry(mem, p, i)) <==> Below(tables[p], i) in PathsOf(tables)
    ensures IsValid(Entry(mem, p, i)) ==>
      && Child(fb, Entry(mem, p, i)) in tables && tables[Child(fb, Entry(mem, p, i))] == Below(tables[p], i)
      && Target(Entry(mem, p, i)) == fb + Child(fb, Entry(mem, p, i)) * PAGE_SIZE
  {
    hide Vpn, Target, IsLeaf, IsValid;
    assert HungFrom(mem, fb, root, tables[p], p);
    if IsValid(Entry(mem, p, i)) {
      assert Child(fb, Entry(mem, p, i)) in tables;
    }
    if Below(tables[p], i) in PathsOf(tables) {
      var q :| q in tables && tables[q] == Below(tables[p], i);
      assert HungFrom(mem, fb, root, tables[q], q);
    }
  }

  lemma NoLowWithoutMid(mem: seq<u64>, fb: nat, root: nat, tables: Tables, i: nat, j: nat)
    requires Tree(mem, fb, root, tables) && i < ENTRIES && Mid(i) !in PathsOf(tables)
    ensures Low(i, j) !in PathsOf(tables)
  {
    hide Vpn, Target, IsLeaf, IsValid;
    if Low(i, j) in PathsOf(tables) {
      var q :| q in tables && tables[q] == Low(i, j);
      assert HungFrom(mem, fb, root, tables[q], q);
      PathInUse(mem, fb, root, tables, root, i);
    }
  }

  /** `more` pages were taken, each as a run of its own. */
  ghost function WithPages(r: Runs, more: set<nat>): Runs
  {
    Runs(r.taken + more, r.last + more)
  }

  /** Tables were added for `paths` in the fresh pages `more`. */
  ghost predicate TablesGrown(r0: Runs, tables0: Tables, r: Runs, tables: Tables, total: nat, paths: set<Path>, more: set<nat>)
  {
    && Extends(tables0, tables, more)
    && PathsOf(tables) == PathsOf(tables0) + paths
    && r == WithPages(r0, more) && more <= FreePages(r0, total)
    && |more| == Missing(paths, PathsOf(tables0))
  }

  ghost predicate Extends(tables0: Tables, tables: Tables, more: set<nat>)
  {
    tables.Keys == tables0.Keys + more && forall p :: p in tables0 ==> p !in more && tables[p] == tables0[p]
  }

  /** How many of the paths are not there yet. */
  ghost function Missing(paths: set<Path>, there: set<Path>): nat
  {
    |paths - there|
  }

  /** No lookup changed and no word outside the tables did. */
  ghost predicate LookupsKept(mem0: seq<u64>, mem: seq<u64>, tables: Tables, fb: nat, root: nat)
  {
    && |mem| == |mem0|
    && (forall v :: PteAt(mem, fb, root, v) == PteAt(mem0, fb, root, v))
    && (forall w :: 0 <= w < |mem| && w / PAGE_WORDS !in tables ==> mem[w] == mem0[w])
  }

  /** What the walk down to v's lowest table leaves behind: nothing changed but tables hung on the way. */
  ghost predicate Descended(mem0: seq<u64>, r0: Runs, tables0: Tables, mem: seq<u64>, r: Runs, tables: Tables, fb: nat,
                            root: nat, total: nat, paths: set<Path>, more: set<nat>)
  {
    TablesGrown(r0, tables0, r, tables, total, paths, more) && LookupsKept(mem0, mem, tables, fb, root)
  }

  lemma DescendedHere(mem: seq<u64>, r: Runs, tables: Tables, fb: nat, root: nat, total: nat)
    ensures Descended(mem, r, tables, mem, r, tables, fb, root, total, {}, {})
  {
    hide TablesGrown;
    GrownHere(r, tables, total);
  }

  lemma GrownNew(r0: Runs, tables0: Tables, r: Runs, tables: Tables, total: nat, paths: set<Path>, more: set<nat>, q: nat, h: Path)
    requires TablesGrown(r0, tables0, r, tables, total, paths, more)
    requires q !in tables && h !in PathsOf(tables) && q in FreePages(r, total)
    ensures TablesGrown(r0, tables0, Allocate(r, q, 1), tables[q := h], total, paths + {h}, more + {q})
  {
    hide Allocate, WithPages, FreePages, PathsOf, Missing, Extends;
    ExtendsStep(tables0, tables, more, q, h);
    ValuesWith(tables, q, h);
    PathsStep(PathsOf(tables0), paths, h);
    PagesStep(r0, more, total, q);
  }

  lemma ExtendsStep(tables0: Tables, tables: Tables, more: set<nat>, q: nat, h: Path)
    requires Extends(tables0, tables, more) && q !in tables
    ensures Extends(tables0, tables[q := h], more + {q}) && q !in more
  {
  }

  lemma PathsStep(values: set<Path>, paths: set<Path>, h: Path)
    requires h !in values + paths
    ensures Missing(paths + {h}, values) == Missing(paths, values) + 1 && values + (paths + {h}) == values + paths + {h}
  {
    assert paths + {h} - values == paths - values + {h};
  }

  lemma PagesStep(r0: Runs, more: set<nat>, total: nat, q: nat)
    requires q in FreePages(WithPages(r0, more), total)
    ensures Allocate(WithPages(r0, more), q, 1) == WithPages(r0, more + {q}) && q in FreePages(r0, total)
  {
    AllocateOne(r0, more, q);
  }

  /** One more table on the way, when its entry was invalid. */
  lemma DescendedNew(mem0: seq<u64>, r0: Runs, tables0: Tables, mem: seq<u64>, r: Runs, tables: Tables, fb: nat,
                     root: nat, total: nat, paths: set<Path>, more: set<nat>, q: nat, h: Path, mem': seq<u64>)
    requires Descended(mem0, r0, tables0, mem, r, tables, fb, root, total, paths, more)
    requires q !in tables && h !in PathsOf(tables) && q in FreePages(r, total) && |mem'| == |mem|
    requires forall v :: PteAt(mem', fb, root, v) == PteAt(mem, fb, root, v)
    requires forall w :: 0 <= w < |mem| && w / PAGE_WORDS !in tables && w / PAGE_WORDS != q ==> mem'[w] == mem[w]
    ensures Descended(mem0, r0, tables0, mem', Allocate(r, q, 1), tables[q := h], fb, root, total, paths + {h}, more + {q})
  {
    hide PteAt, TablesGrown;
    GrownNew(r0, tables0, r, tables, total, paths, more, q, h);
  }

  lemma ValuesWith(tables: Tables, q: nat, h: Path)
    requires q !in tables
    ensures PathsOf(tables[q := h]) == PathsOf(tables) + {h}
  {
    var tables' := tables[q := h];
    forall x | x in PathsOf(tables) ensures x in PathsOf(tables') {
      var p :| p in tables && tables[p] == x;
      assert tables'[p] == x;
    }
    assert tables'[q] == h;
  }

  lemma AllocateOne(r0: Runs, more: set<nat>, q: nat)
    ensures Allocate(WithPages(r0, more), q, 1) == WithPages(r0, more + {q})
  {
    assert Range(q, q + 1) == {q};
  }

  /** Nothing to do when the path is there already. */
  lemma DescendedOld(mem0: seq<u64>, r0: Runs, tables0: Tables, mem: seq<u64>, r: Runs, tables: Tables, fb: nat,
                     root: nat, total: nat, paths: set<Path>, more: set<nat>, h: Path)
    requires Descended(mem0, r0, tables0, mem, r, tables, fb, root, total, paths, more)
    requires h in PathsOf(tables) && h !in paths
    ensures Descended(mem0, r0, tables0, mem, r, tables, fb, root, total, paths + {h}, more)
  {
    hide PathsOf, LookupsKept, Extends, WithPages, FreePages, Missing;
    MissingOld(PathsOf(tables0), paths, h);
  }

  lemma MissingOld(there: set<Path>, paths: set<Path>, h: Path)
    requires h in there + paths && h !in paths
    ensures Missing(paths + {h}, there) == Missing(paths, there) && there + (paths + {h}) == there + paths
  {
    assert paths + {h} - there == paths - there;
  }

  /** One level of mmu_set's walk: allocate the next table if the entry is invalid, then go there. */
  method StepDown(ram: Ram, pt: nat, i: nat, ghost p: nat, ghost root: nat, ghost tables: Tables,
                  ghost mem0: seq<u64>, ghost r0: Runs, ghost tables0: Tables, ghost paths: set<Path>, ghost more: set<nat>)
    returns (pt': nat, ghost p': nat, ghost tables': Tables, ghost more': set<nat>)
    requires Mapped(ram, root, tables) && p in tables && !tables[p].Low? && i < ENTRIES && pt == ram.Frame(p)
    requires Descended(mem0, r0, tables0, ram.Memory(), ram.State(), tables, ram.FrameBase(), root, ram.total, paths, more)
    requires Below(tables[p], i) !in paths
    requires Below(tables[p], i) !in PathsOf(tables) ==> FreePages(ram.State(), ram.total) != {}
    modifies ram.words, ram.book
    ensures Mapped(ram, root, tables') && p' in tables' && tables'[p'] == Below(tables[p], i) && pt' == ram.Frame(p')
    ensures Descended(mem0, r0, tables0, ram.Memory(), ram.State(), tables', ram.FrameBase(), root, ram.total,
                      paths + {Below(tables[p], i)}, more')
  {
    hide Tree, Held, RunsOf, IsValid, IsLeaf, Target, BranchTo, Vpn, PteAt, FreePages, Allocate, Descended, PathsOf, Entry, WellFormed;
    ghost var fb, mem := ram.FrameBase(), ram.Memory();
    TableInMemory(mem, fb, root, tables, p);
    PathInUse(mem, fb, root, tables, p, i);
    var entry := ReadEntry(ram, pt, i, p);
    if !IsValid(entry) {
      ghost var q, r := 0, ram.State();
      entry, tables', q := HangTable(ram, pt, i, p, root, tables);
      DescendedNew(mem0, r0, tables0, mem, r, tables, fb, root, ram.total, paths, more, q, Below(tables[p], i), ram.Memory());
      p', more' := q, more + {q};
    } else {
      DescendedOld(mem0, r0, tables0, mem, ram.State(), tables, fb, root, ram.total, paths, more, Below(tables[p], i));
      p', tables', more' := Child(fb, entry), tables, more;
    }
    pt' := Target(entry);
  }

  /** Taking `more` of the free pages leaves the rest. */
  lemma FreeLeft(r0: Runs, more: set<nat>, total: nat)
    requires more <= FreePages(r0, total)
    ensures FreePages(WithPages(r0, more), total) == FreePages(r0, total) - more
    ensures |FreePages(WithPages(r0, more), total)| == |FreePages(r0, total)| - |more|
  {
    assert FreePages(WithPages(r0, more), total) == FreePages(r0, total) - more;
  }

  lemma SomeMissing(paths: set<Path>, there: set<Path>, h: Path)
    requires h in paths && h !in there
    ensures Missing(paths, there) >= 1 && Missing(paths, there) == Missing(paths - {h}, there) + 1
  {
    assert paths - there == (paths - {h} - there) + {h};
  }

  lemma RoomForMid(v: u64, there: set<Path>, free: set<nat>)
    requires |free| >= Missing(PathsTo(v), there)
    ensures Mid(Vpn(v, 2)) !in there ==> free != {}
  {
    if Mid(Vpn(v, 2)) !in there {
      SomeMissing(PathsTo(v), there, Mid(Vpn(v, 2)));
    }
  }

  lemma RoomForLow(r0: Runs, tables: Tables, r: Runs, tables1: Tables, total: nat, v: u64, more: set<nat>)
    requires TablesGrown(r0, tables, r, tables1, total, {Mid(Vpn(v, 2))}, more)
    requires |FreePages(r0, total)| >= Missing(PathsTo(v), PathsOf(tables))
    ensures Low(Vpn(v, 2), Vpn(v, 1)) !in PathsOf(tables1) ==> FreePages(r, total) != {}
  {
    hide PathsOf, Extends;
    FreeLeft(r0, more, total);
    if Low(Vpn(v, 2), Vpn(v, 1)) !in PathsOf(tables1) {
      SomeMissing(PathsTo(v), PathsOf(tables), Low(Vpn(v, 2), Vpn(v, 1)));
      assert PathsTo(v) - {Low(Vpn(v, 2), Vpn(v, 1))} == {Mid(Vpn(v, 2))};
    }
  }

  lemma DescendedParts(mem0: seq<u64>, r0: Runs, tables0: Tables, mem: seq<u64>, r: Runs, tables: Tables, fb: nat,
                       root: nat, total: nat, paths: set<Path>, more: set<nat>)
    requires Descended(mem0, r0, tables0, mem, r, tables, fb, root, total, paths, more)
    ensures TablesGrown(r0, tables0, r, tables, total, paths, more)
    ensures |mem| == |mem0| && (forall v :: PteAt(mem, fb, root, v) == PteAt(mem0, fb, root, v))
    ensures forall w :: 0 <= w < |mem| && w / PAGE_WORDS !in tables ==> mem[w] == mem0[w]
  {
  }

  lemma RootIsTable(mem: seq<u64>, fb: nat, root: nat, tables: Tables)
    requires Tree(mem, fb, root, tables)
    ensures root in tables && tables[root] == Root
  {
  }

  lemma EntryInPage(p: nat, i: nat)
    requires i < ENTRIES
    ensures (p * PAGE_WORDS + i) / PAGE_WORDS == p
  {
  }

  /** mmu_set changes the lookup of v's page to the new entry and no other; it takes a page per missing table. */
  method MmuSet(ram: Ram, pt: nat, v: u64, paddr: u64, bits: nat, ghost root: nat, ghost tables: Tables)
    returns (code: int, ghost tables': Tables, ghost more: set<nat>)
    requires Mapped(ram, root, tables) && pt == ram.Frame(root)
    requires bits < 1024 && (bits % 2 == 1 ==> bits / 2 % 8 != 0) && paddr < PHYSICAL_LIMIT
    requires |FreePages(ram.State(), ram.total)| >= Missing(PathsTo(v), PathsOf(tables))
    modifies ram.words, ram.book
    ensures code == 0 && Mapped(ram, root, tables')
    ensures TablesGrown(old(ram.State()), tables, ram.State(), tables', ram.total, PathsTo(v), more)
    ensures LooksUp(old(ram.Memory()), ram.Memory(), ram.FrameBase(), root, v, LeafEntry(paddr, bits))
    ensures OutsideKept(old(ram.Memory()), ram.Memory(), tables')
  {
    hide Tree, Held, RunsOf, IsValid, IsLeaf, Target, BranchTo, Vpn, PteAt, FreePages, Allocate, Descended, PathsOf, Entry,
      WellFormed, Missing, SamePage, LeafEntry, TablesGrown;
    ghost var fb, mem0, r0 := ram.FrameBase(), ram.Memory(), ram.State();
    RootIsTable(mem0, fb, root, tables);
    DescendedHere(mem0, r0, tables, fb, root, ram.total);
    RoomForMid(v, PathsOf(tables), FreePages(r0, ram.total));
    ghost var p1, p0, tables1, more1;
    var pt1, pt0;
    pt1, p1, tables1, more1 := StepDown(ram, pt, Vpn(v, 2), root, root, tables, mem0, r0, tables, {}, {});
    assert {} + {Mid(Vpn(v, 2))} == {Mid(Vpn(v, 2))};
    DescendedParts(mem0, r0, tables, ram.Memory(), ram.State(), tables1, fb, root, ram.total, {Mid(Vpn(v, 2))}, more1);
    RoomForLow(r0, tables, ram.State(), tables1, ram.total, v, more1);
    pt0, p0, tables', more := StepDown(ram, pt1, Vpn(v, 1), p1, root, tables1, mem0, r0, tables, {Mid(Vpn(v, 2))}, more1);
    ghost var mem := ram.Memory();
    assert {Mid(Vpn(v, 2))} + {Low(Vpn(v, 2), Vpn(v, 1))} == PathsTo(v);
    DescendedParts(mem0, r0, tables, mem, ram.State(), tables', fb, root, ram.total, PathsTo(v), more);
    var entry := LeafEntry(paddr, bits);
    EntryInPage(p0, Vpn(v, 0));
    LeafTarget(paddr, bits, v);
    TableInMemory(mem, fb, root, tables', p0);
    WriteEntry(ram, pt0, Vpn(v, 0), entry, p0);
    LeafWritten(mem, fb, root, tables', v, p0, entry);
    code := 0;
  }

  // ---- mapping and unmapping ----------------------------------------------------------

  /** Looking up v's page gives e, and every other page what it gave before. */
  ghost predicate LooksUp(mem0: seq<u64>, mem: seq<u64>, fb: nat, root: nat, v: u64, e: u64)
  {
    forall u :: PteAt(mem, fb, root, u) == if SamePage(u, v) then e else PteAt(mem0, fb, root, u)
  }

  /** v's page translates to the page at `to`, or to nothing, and every other address as before. */
  ghost predicate Translates(mem0: seq<u64>, mem: seq<u64>, fb: nat, root: nat, v: u64, to: Destination)
  {
    forall u :: Translate(mem, fb, root, u) as int
                == if !SamePage(u, v) then Translate(mem0, fb, root, u) as int
                   else match to case Nowhere => NO_ADDRESS as int case ToPage(a) => a as int + u as int % 0x1000
  }

  datatype Destination = Nowhere | ToPage(address: u64)

  ghost predicate OutsideKept(mem0: seq<u64>, mem: seq<u64>, tables: Tables)
  {
    |mem| == |mem0| && forall w :: 0 <= w < |mem| && w / PAGE_WORDS !in tables ==> mem[w] == mem0[w]
  }

  /** What one page's new entry does to translation. */
  lemma TranslateAfter(mem: seq<u64>, mem': seq<u64>, fb: nat, root: nat, tables: Tables, tables': Tables, v: u64,
                       paddr: u64, bits: nat)
    requires Tree(mem, fb, root, tables) && Tree(mem', fb, root, tables')
    requires bits < 1024 && (bits % 2 == 1 ==> bits / 2 % 8 != 0) && paddr < PHYSICAL_LIMIT
    requires LooksUp(mem, mem', fb, root, v, LeafEntry(paddr, bits))
    ensures Translates(mem, mem', fb, root, v, if bits % 2 == 1 then ToPage(PageOf(paddr)) else Nowhere)
  {
    hide Tree, PteAt, SamePage, LeafEntry, LeafAddress, Translate, IsValid, IsLeaf;
    forall u: u64
      ensures Translate(mem', fb, root, u) as int
           == if !SamePage(u, v) then Translate(mem, fb, root, u) as int
              else if bits % 2 == 1 then PageOf(paddr) as int + u as int % 0x1000 else NO_ADDRESS as int
    {
      TranslateIsLookup(mem, fb, root, tables, u);
      TranslateIsLookup(mem', fb, root, tables', u);
      LeafTarget(paddr, bits, u);
    }
  }

  lemma PageGrants(mem0: seq<u64>, mem: seq<u64>, fb: nat, root: nat, v: u64, paddr: u64, bits: nat)
    requires bits < 1024 && paddr < PHYSICAL_LIMIT
    requires LooksUp(mem0, mem, fb, root, v, LeafEntry(paddr, WithValid(bits)))
    ensures forall u :: SamePage(u, v) ==>
              var e := PteAt(mem, fb, root, u) as int;
              e % 2 == 1 && e % 1024 / 2 == bits / 2 && e / 1024 == paddr as int / 4096
  {
    hide LeafEntry, WithValid, SamePage, PteAt;
    EntryFlags(paddr, bits);
  }

  /** mmu_map: v's page now translates to paddr's page; without a permission bit nothing happens. */
  method MmuMap(ram: Ram, pt: nat, v: u64, paddr: u64, bits: nat, ghost root: nat, ghost tables: Tables)
    returns (code: int, ghost tables': Tables, ghost more: set<nat>)
    requires Mapped(ram, root, tables) && pt == ram.Frame(root) && bits < 1024 && paddr < PHYSICAL_LIMIT
    requires |FreePages(ram.State(), ram.total)| >= Missing(PathsTo(v), PathsOf(tables))
    modifies ram.words, ram.book
    ensures code == if bits / 2 % 8 == 0 then -1 else 0
    ensures code != 0 ==> ram.Memory() == old(ram.Memory()) && ram.State() == old(ram.State()) && tables' == tables
    ensures Mapped(ram, root, tables')
    ensures code == 0 ==>
      && TablesGrown(old(ram.State()), tables, ram.State(), tables', ram.total, PathsTo(v), more)
      && LooksUp(old(ram.Memory()), ram.Memory(), ram.FrameBase(), root, v, LeafEntry(paddr, WithValid(bits)))
      && Translates(old(ram.Memory()), ram.Memory(), ram.FrameBase(), root, v, ToPage(PageOf(paddr)))
      && OutsideKept(old(ram.Memory()), ram.Memory(), tables')
      // the entry is valid, carries exactly the flags asked for, and holds the frame number
      && (forall u :: SamePage(u, v) ==>
            var e := PteAt(ram.Memory(), ram.FrameBase(), root, u) as int;
            e % 2 == 1 && e % 1024 / 2 == bits / 2 && e / 1024 == paddr as int / 4096)
  {
    hide *;
    if bits / 2 % 8 == 0 {
      code, tables', more := -1, tables, {};
      return;
    }
    ghost var mem := ram.Memory();
    MappedTree(ram, root, tables);
    var valid := WithValid(bits);
    code, tables', more := MmuSet(ram, pt, v, paddr, valid, root, tables);
    MappedTree(ram, root, tables');
    TranslateAfter(mem, ram.Memory(), ram.FrameBase(), root, tables, tables', v, paddr, valid);
    PageGrants(mem, ram.Memory(), ram.FrameBase(), root, v, paddr, bits);
  }

  lemma MappedTree(ram: Ram, root: nat, tables: Tables)
    requires Mapped(ram, root, tables)
    ensures Tree(ram.Memory(), ram.FrameBase(), root, tables) && ram.Valid()
  {
  }

  /** mmu_unmap: v's page translates to nothing. */
  method MmuUnmap(ram: Ram, pt: nat, v: u64, ghost root: nat, ghost tables: Tables)
    returns (code: int, ghost tables': Tables, ghost more: set<nat>)
    requires Mapped(ram, root, tables) && pt == ram.Frame(root)
    requires |FreePages(ram.State(), ram.total)| >= Missing(PathsTo(v), PathsOf(tables))
    modifies ram.words, ram.book
    ensures code == 0 && Mapped(ram, root, tables')
    ensures TablesGrown(old(ram.State()), tables, ram.State(), tables', ram.total, PathsTo(v), more)
    ensures LooksUp(old(ram.Memory()), ram.Memory(), ram.FrameBase(), root, v, LeafEntry(0, 0))
    ensures Translates(old(ram.Memory()), ram.Memory(), ram.FrameBase(), root, v, Nowhere)
    ensures OutsideKept(old(ram.Memory()), ram.Memory(), tables')
  {
    assert 0 < PHYSICAL_LIMIT;
    hide *;
    ghost var mem := ram.Memory();
    MappedTree(ram, root, tables);
    code, tables', more := MmuSet(ram, pt, v, 0, 0, root, tables);
    MappedTree(ram, root, tables');
    TranslateAfter(mem, ram.Memory(), ram.FrameBase(), root, tables, tables', v, 0, 0);
  }

  // ---- mapping a range ------------------------------------------------------------------

  const VIRTUAL_LIMIT: nat := 0x80_0000_0000   // 2^39

  /** Addresses v .. v + span, taken modulo 2^39, translate in order to paddr .. paddr + span; no other changed. */
  ghost predicate SpanMapped(mem0: seq<u64>, mem: seq<u64>, fb: nat, root: nat, v: nat, span: nat, paddr: nat)
  {
    forall u :: Translate(mem, fb, root, u) as int
                == if v <= u as int % VIRTUAL_LIMIT < v + span then paddr + (u as int % VIRTUAL_LIMIT - v)
                   else Translate(mem0, fb, root, u) as int
  }

  /** Every page of the span has a valid entry with exactly the flags asked for and its own frame number. */
  ghost predicate SpanGrants(mem: seq<u64>, fb: nat, root: nat, v: nat, span: nat, paddr: nat, bits: nat)
  {
    forall u :: v <= u as int % VIRTUAL_LIMIT < v + span ==>
      var e := PteAt(mem, fb, root, u) as int;
      e % 2 == 1 && e % 1024 / 2 == bits / 2 && e / 1024 == (paddr + (u as int % VIRTUAL_LIMIT - v)) / 4096
  }

  lemma SpanGrantsMore(mem: seq<u64>, mem': seq<u64>, fb: nat, root: nat, v: nat, i: nat, paddr: nat, bits: nat, e: u64)
    requires SpanGrants(mem, fb, root, v, i, paddr, bits) && v + i + PAGE_SIZE <= VIRTUAL_LIMIT
    requires v % PAGE_SIZE == 0 && i % PAGE_SIZE == 0 && paddr % PAGE_SIZE == 0 && bits < 1024
    requires paddr + i < PHYSICAL_LIMIT && e == LeafEntry(paddr + i, WithValid(bits))
    requires LooksUp(mem, mem', fb, root, v + i, e)
    ensures SpanGrants(mem', fb, root, v, i + PAGE_SIZE, paddr, bits)
  {
    hide PteAt, SamePage, LeafEntry, WithValid;
    EntryFlags(paddr + i, bits);
    forall u: u64 | v <= u as int % VIRTUAL_LIMIT < v + i + PAGE_SIZE
      ensures var e := PteAt(mem', fb, root, u) as int;
              e % 2 == 1 && e % 1024 / 2 == bits / 2 && e / 1024 == (paddr + (u as int % VIRTUAL_LIMIT - v)) / 4096
    {
      PageOfSpan(u, v + i);
      if SamePage(u, v + i) {
        SameFrame(paddr, i, u as int % VIRTUAL_LIMIT - v);
      }
    }
  }

  lemma SameFrame(paddr: nat, i: nat, d: nat)
    requires paddr % PAGE_SIZE == 0 && i % PAGE_SIZE == 0 && i <= d < i + PAGE_SIZE
    ensures (paddr + d) / 4096 == (paddr + i) / 4096
  {
  }

  /** The tables needed to map n pages from v on, besides the root. */
  ghost function PathsFor(v: nat, n: nat): set<Path>
    requires v + n * PAGE_SIZE <= VIRTUAL_LIMIT
  {
    if n == 0 then {} else PathsFor(v, n - 1) + PathsTo(v + (n - 1) * PAGE_SIZE)
  }

  lemma {:induction false} PathsForMono(v: nat, k: nat, n: nat)
    requires k <= n && v + n * PAGE_SIZE <= VIRTUAL_LIMIT
    ensures PathsFor(v, k) <= PathsFor(v, n)
  {
    if k < n {
      PathsForMono(v, k, n - 1);
    }
  }

  /** One more page at the end of a mapped span. */
  lemma SpanGrows(mem0: seq<u64>, mem: seq<u64>, mem': seq<u64>, fb: nat, root: nat, v: nat, i: nat, paddr: nat)
    requires SpanMapped(mem0, mem, fb, root, v, i, paddr) && v + i + PAGE_SIZE <= VIRTUAL_LIMIT
    requires v % PAGE_SIZE == 0 && i % PAGE_SIZE == 0 && paddr % PAGE_SIZE == 0 && paddr + i < PHYSICAL_LIMIT
    requires Translates(mem, mem', fb, root, v + i, ToPage(paddr + i))
    ensures SpanMapped(mem0, mem', fb, root, v, i + PAGE_SIZE, paddr)
  {
    hide Translate, SamePage;
    forall u: u64
      ensures Translate(mem', fb, root, u) as int
           == if v <= u as int % VIRTUAL_LIMIT < v + i + PAGE_SIZE then paddr + (u as int % VIRTUAL_LIMIT - v)
              else Translate(mem0, fb, root, u) as int
    {
      PageOfSpan(u, v + i);
    }
  }

  lemma PageOfSpan(u: u64, v: nat)
    requires v % PAGE_SIZE == 0 && v + PAGE_SIZE <= VIRTUAL_LIMIT
    ensures SamePage(u, v) <==> v <= u as int % VIRTUAL_LIMIT < v + PAGE_SIZE
    ensures SamePage(u, v) ==> u as int % 0x1000 == u as int % VIRTUAL_LIMIT - v
  {
    hide SamePage;
    SamePageIs(u, v);
    DigitsOfLow(u);
    var x := u as int % VIRTUAL_LIMIT;
    assert v / 0x1000 % 0x800_0000 == v / 0x1000;
  }

  lemma DigitsOfLow(u: nat)
    ensures u / 0x1000 % 0x800_0000 == u % VIRTUAL_LIMIT / 0x1000 && u % 0x1000 == u % VIRTUAL_LIMIT % 0x1000
  {
    var p, q := u / 0x1000, u / VIRTUAL_LIMIT;
    assert q == p / 0x800_0000;
  }

  lemma GrownTwice(r0: Runs, tables0: Tables, r1: Runs, tables1: Tables, r2: Runs, tables2: Tables, total: nat,
                   paths1: set<Path>, more1: set<nat>, paths2: set<Path>, more2: set<nat>)
    requires TablesGrown(r0, tables0, r1, tables1, total, paths1, more1)
    requires TablesGrown(r1, tables1, r2, tables2, total, paths2, more2)
    ensures TablesGrown(r0, tables0, r2, tables2, total, paths1 + paths2, more1 + more2)
  {
    hide PathsOf, Extends, Missing, FreePages, WithPages;
    ExtendsTwice(tables0, tables1, tables2, more1, more2);
    PagesTwice(r0, more1, more2, total);
    MissingTwice(paths1, paths2, PathsOf(tables0));
    assert PathsOf(tables2) == PathsOf(tables0) + (paths1 + paths2);
  }

  lemma PagesTwice(r0: Runs, more1: set<nat>, more2: set<nat>, total: nat)
    requires more2 <= FreePages(WithPages(r0, more1), total)
    ensures WithPages(WithPages(r0, more1), more2) == WithPages(r0, more1 + more2)
    ensures more2 <= FreePages(r0, total) && |more1 + more2| == |more1| + |more2|
  {
    assert more1 !! more2;
  }

  lemma ExtendsTwice(tables0: Tables, tables1: Tables, tables2: Tables, more1: set<nat>, more2: set<nat>)
    requires Extends(tables0, tables1, more1) && Extends(tables1, tables2, more2)
    ensures Extends(tables0, tables2, more1 + more2)
  {
    assert tables2.Keys == tables0.Keys + (more1 + more2);
  }

  lemma MissingTwice(paths1: set<Path>, paths2: set<Path>, there: set<Path>)
    ensures Missing(paths1 + paths2, there) == Missing(paths1, there) + Missing(paths2, there + paths1)
  {
    assert paths1 + paths2 - there == (paths1 - there) + (paths2 - (there + paths1));
  }

  lemma MissingMono(paths: set<Path>, more: set<Path>, there: set<Path>)
    requires paths <= more
    ensures Missing(paths, there) <= Missing(more, there)
  {
    assert more - there == (paths - there) + (more - paths - there);
  }

  /** Enough pages for the whole span are enough for its next page. */
  lemma RoomForNext(r0: Runs, tables0: Tables, r: Runs, tables: Tables, total: nat, v: nat, k: nat, n: nat, more: set<nat>)
    requires k < n && v + n * PAGE_SIZE <= VIRTUAL_LIMIT
    requires TablesGrown(r0, tables0, r, tables, total, PathsFor(v, k), more)
    requires |FreePages(r0, total)| >= Missing(PathsFor(v, n), PathsOf(tables0))
    ensures |FreePages(r, total)| >= Missing(PathsTo(v + k * PAGE_SIZE), PathsOf(tables))
  {
    hide PathsOf, Extends, Missing, PathsTo, FreePages;
    FreeLeft(r0, more, total);
    PathsForMono(v, k + 1, n);
    MissingMono(PathsFor(v, k + 1), PathsFor(v, n), PathsOf(tables0));
    MissingTwice(PathsFor(v, k), PathsTo(v + k * PAGE_SIZE), PathsOf(tables0));
  }

  lemma OutsideTwice(mem0: seq<u64>, mem1: seq<u64>, mem2: seq<u64>, tables1: Tables, tables2: Tables, more: set<nat>)
    requires OutsideKept(mem0, mem1, tables1) && OutsideKept(mem1, mem2, tables2) && Extends(tables1, tables2, more)
    ensures OutsideKept(mem0, mem2, tables2)
  {
  }

  lemma GrownHere(r: Runs, tables: Tables, total: nat)
    ensures TablesGrown(r, tables, r, tables, total, {}, {})
  {
    hide PathsOf, FreePages, Extends, Missing, WithPages;
    NoneMissing(PathsOf(tables));
    ExtendsNone(r, tables);
  }

  lemma ExtendsNone(r: Runs, tables: Tables)
    ensures Extends(tables, tables, {}) && WithPages(r, {}) == r
  {
    assert tables.Keys + {} == tables.Keys;
    assert r == WithPages(r, {});
  }

  lemma NoneMissing(there: set<Path>)
    ensures Missing({}, there) == 0 && there + {} == there
  {
    assert {} - there == {};
  }

  lemma GrownExtends(r0: Runs, tables0: Tables, r: Runs, tables: Tables, total: nat, paths: set<Path>, more: set<nat>)
    requires TablesGrown(r0, tables0, r, tables, total, paths, more)
    ensures Extends(tables0, tables, more)
  {
  }

  /** How many pages the loop maps for a number of bytes. */
  function PagesFor(bytes: nat): nat { (bytes + PAGE_SIZE - 1) / PAGE_SIZE }

  /** mmu_map_multiple on page-aligned addresses maps the range in order; without a permission bit it does nothing. */
  method MmuMapMultiple(ram: Ram, pt: nat, v: nat, paddr: nat, bytes: nat, bits: nat, ghost root: nat, ghost tables: Tables)
    returns (ghost tables': Tables, ghost more: set<nat>)
    requires Mapped(ram, root, tables) && pt == ram.Frame(root) && bits < 1024
    requires v % PAGE_SIZE == 0 && paddr % PAGE_SIZE == 0
    requires v + PagesFor(bytes) * PAGE_SIZE <= VIRTUAL_LIMIT && paddr + PagesFor(bytes) * PAGE_SIZE <= PHYSICAL_LIMIT
    requires |FreePages(ram.State(), ram.total)| >= Missing(PathsFor(v, PagesFor(bytes)), PathsOf(tables))
    modifies ram.words, ram.book
    ensures Mapped(ram, root, tables')
    ensures bits / 2 % 8 == 0 ==> ram.Memory() == old(ram.Memory()) && ram.State() == old(ram.State()) && tables' == tables
    ensures bits / 2 % 8 != 0 ==>
      && TablesGrown(old(ram.State()), tables, ram.State(), tables', ram.total, PathsFor(v, PagesFor(bytes)), more)
      && SpanMapped(old(ram.Memory()), ram.Memory(), ram.FrameBase(), root, v, PagesFor(bytes) * PAGE_SIZE, paddr)
      && SpanGrants(ram.Memory(), ram.FrameBase(), root, v, PagesFor(bytes) * PAGE_SIZE, paddr, bits)
      && OutsideKept(old(ram.Memory()), ram.Memory(), tables')
  {
    hide Tree, Held, RunsOf, PathsOf, FreePages, Missing, TablesGrown, PathsTo, Translates, LooksUp, WellFormed, Mapped,
      Translate, Extends, SpanMapped, OutsideKept, PathsFor, PageOf, PteAt, SamePage, LeafEntry, WithValid, SpanGrants;
    ghost var mem0, r0, fb, n := ram.Memory(), ram.State(), ram.FrameBase(), PagesFor(bytes);
    tables', more := tables, {};
    ghost var k := 0;
    GrownHere(r0, tables, ram.total);
    assert PathsFor(v, 0) == {} by { PathsForNone(v); }
    SpanNone(mem0, fb, root, v, paddr, bits, tables);
    var i := 0;
    while i < bytes
      invariant 0 <= k <= n && i == k * PAGE_SIZE && (k == n || i < bytes)
      invariant Mapped(ram, root, tables')
      invariant TablesGrown(r0, tables, ram.State(), tables', ram.total, PathsFor(v, k), more)
      invariant SpanMapped(mem0, ram.Memory(), fb, root, v, i, paddr)
      invariant SpanGrants(ram.Memory(), fb, root, v, i, paddr, bits)
      invariant OutsideKept(mem0, ram.Memory(), tables')
      invariant bits / 2 % 8 == 0 ==> k == 0 && ram.Memory() == mem0 && ram.State() == r0 && tables' == tables
      decreases bytes - i
    {
      ghost var mem, r, tables1, more1 := ram.Memory(), ram.State(), tables', more;
      RoomForNext(r0, tables, r, tables1, ram.total, v, k, n, more1);
      var code;
      code, tables', more := MmuMap(ram, pt, v + i, paddr + i, bits, root, tables1);
      if code != 0 {
        return;
      }
      AlignedPage(paddr, k);
      SpanGrantsMore(mem, ram.Memory(), fb, root, v, i, paddr, bits, LeafEntry(paddr + i, WithValid(bits)));
      MapStep(mem0, mem, ram.Memory(), r0, r, ram.State(), fb, root, ram.total, v, i, paddr, v + i, paddr + i,
              PathsFor(v, k), PathsTo(v + i), tables, tables1, tables', more1, more);
      PathsForNext(v, k, i);
      more := more1 + more;
      k := k + 1;
      i := i + PAGE_SIZE;
    }
  }

  lemma SpanNone(mem: seq<u64>, fb: nat, root: nat, v: nat, paddr: nat, bits: nat, tables: Tables)
    ensures SpanGrants(mem, fb, root, v, 0, paddr, bits)
    ensures SpanMapped(mem, mem, fb, root, v, 0, paddr) && OutsideKept(mem, mem, tables)
  {
    hide Translate;
  }

  lemma AlignedPage(paddr: nat, k: nat)
    requires paddr % PAGE_SIZE == 0 && paddr + k * PAGE_SIZE < PHYSICAL_LIMIT
    ensures PageOf(paddr + k * PAGE_SIZE) == paddr + k * PAGE_SIZE && k * PAGE_SIZE % PAGE_SIZE == 0
  {
  }

  lemma PathsForNone(v: nat)
    requires v <= VIRTUAL_LIMIT
    ensures PathsFor(v, 0) == {}
  {
  }

  lemma PathsForNext(v: nat, k: nat, i: nat)
    requires v + (k + 1) * PAGE_SIZE <= VIRTUAL_LIMIT && i == k * PAGE_SIZE
    ensures PathsFor(v, k + 1) == PathsFor(v, k) + PathsTo(v + i)
  {
  }

  lemma MapStep(mem0: seq<u64>, mem: seq<u64>, mem': seq<u64>, r0: Runs, r: Runs, r': Runs, fb: nat, root: nat, total: nat,
                v: nat, i: nat, paddr: nat, at: u64, to: u64, done: set<Path>, next: set<Path>,
                tables0: Tables, tables: Tables, tables': Tables, more: set<nat>, more': set<nat>)
    requires at as int == v + i && to as int == paddr + i && v + i + PAGE_SIZE <= VIRTUAL_LIMIT && paddr + i < PHYSICAL_LIMIT
    requires v % PAGE_SIZE == 0 && paddr % PAGE_SIZE == 0 && i % PAGE_SIZE == 0
    requires TablesGrown(r0, tables0, r, tables, total, done, more)
    requires SpanMapped(mem0, mem, fb, root, v, i, paddr) && OutsideKept(mem0, mem, tables)
    requires TablesGrown(r, tables, r', tables', total, next, more')
    requires Translates(mem, mem', fb, root, at, ToPage(to))
    requires OutsideKept(mem, mem', tables')
    ensures TablesGrown(r0, tables0, r', tables', total, done + next, more + more')
    ensures SpanMapped(mem0, mem', fb, root, v, i + PAGE_SIZE, paddr) && OutsideKept(mem0, mem', tables')
  {
    hide TablesGrown, SpanMapped, OutsideKept, Translates, PathsTo, PageOf, Extends, PathsOf, PathsFor;
    GrownTwice(r0, tables0, r, tables, r', tables', total, done, more, next, more');
    GrownExtends(r, tables, r', tables', total, next, more');
    OutsideTwice(mem0, mem, mem', tables, tables', more');
    SpanGrows(mem0, mem, mem', fb, root, v, i, paddr);
  }

  // ---- freeing a table tree ---------------------------------------------------------------

  predicate Under(x: Path, h: Path)
  {
    match h
    case Root => true
    case Mid(i) => !x.Root? && x.i == i
    case Low(i, j) => x == h
  }

  /** The tables at and below a path. */
  ghost function SubTree(tables: Tables, h: Path): set<nat>
  {
    set p | p in tables && Under(tables[p], h)
  }

  /** The tables below the first i entries of the table at a path. */
  ghost function FirstBelow(tables: Tables, h: Path, i: nat): set<nat>
  {
    if h.Low? then {} else set p, k | p in tables && 0 <= k < i && Under(tables[p], Below(h, k)) :: p
  }

  function Level(h: Path): nat
  {
    match h case Root => 2 case Mid(_) => 1 case Low(_, _) => 0
  }

  ghost function Without(r: Runs, gone: set<nat>): Runs
  {
    Runs(r.taken - gone, r.last - gone)
  }

  /** Every table that is not gone still has its own page. */
  ghost predicate HeldBut(r: Runs, usable: nat, tables: Tables, gone: set<nat>)
  {
    forall p :: p in tables && p !in gone ==>
      1 <= p < usable && p in r.taken && p in r.last && (p - 1 in r.taken ==> p - 1 in r.last)
  }

  /** With nothing gone yet that is what a mapped tree has. */
  lemma HeldAll(r: Runs, usable: nat, tables: Tables)
    ensures HeldBut(r, usable, tables, {}) <==> Held(r, usable, tables)
  {
  }

  /** The lowest-level tables among the freed ones hold no valid entry any more. */
  ghost predicate Cleared(mem: seq<u64>, tables: Tables, freed: set<nat>)
  {
    forall p, i :: p in freed && p in tables && tables[p].Low? && 0 <= i < ENTRIES ==> !IsValid(Entry(mem, p, i))
  }

  /** Words outside the given pages are as they were. */
  ghost predicate PagesKept(mem0: seq<u64>, mem: seq<u64>, pages: set<nat>)
  {
    |mem| == |mem0| && forall w :: 0 <= w < |mem| && w / PAGE_WORDS !in pages ==> mem[w] == mem0[w]
  }

  lemma FirstNone(tables: Tables, h: Path)
    ensures FirstBelow(tables, h, 0) == {}
  {
  }

  lemma FirstNext(tables: Tables, h: Path, i: nat)
    requires !h.Low?
    ensures FirstBelow(tables, h, i + 1) == FirstBelow(tables, h, i) + SubTree(tables, Below(h, i))
    ensures FirstBelow(tables, h, i) !! SubTree(tables, Below(h, i))
  {
    forall p | p in FirstBelow(tables, h, i) ensures p !in SubTree(tables, Below(h, i)) {
      var k :| 0 <= k < i && Under(tables[p], Below(h, k));
    }
    forall p | p in FirstBelow(tables, h, i) + SubTree(tables, Below(h, i)) ensures p in FirstBelow(tables, h, i + 1) {
      if p in SubTree(tables, Below(h, i)) {
        assert Under(tables[p], Below(h, i));
      } else {
        var k :| 0 <= k < i && Under(tables[p], Below(h, k));
        assert 0 <= k < i + 1;
      }
    }
  }

  /** A table's subtree is the table itself and what hangs below its entries. */
  lemma FirstAll(mem: seq<u64>, fb: nat, root: nat, tables: Tables, h: Path, p: nat)
    requires Tree(mem, fb, root, tables) && p in tables && tables[p] == h
    ensures SubTree(tables, h) == FirstBelow(tables, h, ENTRIES) + {p} && p !in FirstBelow(tables, h, ENTRIES)
    ensures forall i: nat :: i <= ENTRIES ==> FirstBelow(tables, h, i) <= FirstBelow(tables, h, ENTRIES)
  {
    hide Entry, Vpn, IsValid, IsLeaf, Target, HungFrom, IsBranch, Child;
    forall q | q in SubTree(tables, h) ensures q in FirstBelow(tables, h, ENTRIES) + {p} {
      if tables[q] == h {
        OnePerPath(mem, fb, root, tables, p, q);
      } else {
        assert IsPath(tables[q]);
        var k := if h.Root? then tables[q].i else tables[q].j;
        assert 0 <= k < ENTRIES && Under(tables[q], Below(h, k));
      }
    }
  }

  lemma OnePerPath(mem: seq<u64>, fb: nat, root: nat, tables: Tables, p: nat, q: nat)
    requires Tree(mem, fb, root, tables) && p in tables && q in tables && tables[p] == tables[q]
    ensures p == q
  {
    hide Entry, Vpn, IsValid, IsLeaf, Target;
    assert HungFrom(mem, fb, root, tables[p], p) && HungFrom(mem, fb, root, tables[q], q);
  }

  /** Nothing hangs below an invalid entry. */
  lemma NothingBelow(mem: seq<u64>, fb: nat, root: nat, tables: Tables, p: nat, i: nat)
    requires Tree(mem, fb, root, tables) && p in tables && !tables[p].Low? && i < ENTRIES && !IsValid(Entry(mem, p, i))
    ensures SubTree(tables, Below(tables[p], i)) == {}
  {
    hide Tree, IsValid, Entry, PathsOf;
    PathInUse(mem, fb, root, tables, p, i);
    forall q | q in tables ensures !Under(tables[q], Below(tables[p], i)) {
      PathOfTable(tables, q);
      if tables[p].Root? && tables[q].Low? {
        assert tables[p] == Root;
        NoLowWithoutMid(mem, fb, root, tables, i, tables[q].j);
      }
    }
  }

  lemma PathOfTable(tables: Tables, q: nat)
    requires q in tables
    ensures tables[q] in PathsOf(tables)
  {
  }

  lemma WithoutMore(r: Runs, gone: set<nat>, more: set<nat>)
    ensures Without(Without(r, gone), more) == Without(r, gone + more)
  {
    assert r.taken - gone - more == r.taken - (gone + more);
    assert r.last - gone - more == r.last - (gone + more);
  }

  lemma HeldButMore(r: Runs, usable: nat, tables: Tables, gone: set<nat>, more: set<nat>)
    requires HeldBut(r, usable, tables, gone)
    ensures HeldBut(Without(r, more), usable, tables, gone + more)
  {
  }

  /** Cutting a run of a single page frees that page. */
  lemma CutOne(r: Runs, total: nat, p: nat)
    requires p > 0 && p in r.taken && p in r.last && (p - 1 in r.taken ==> p - 1 in r.last)
    ensures Cut(r, total, p) == Without(r, {p})
  {
    assert Range(p, p + 1) == {p};
  }

  /**
   * mmu_free: every table at and below p is passed to page_free exactly once, so exactly their pages are free
   * afterwards; the leaves are cleared and no other word changes.
   */
  method MmuFree(ram: Ram, pt: nat, ghost p: nat, ghost root: nat, ghost tables: Tables, ghost gone: set<nat>)
    returns (ghost freed: seq<nat>)
    requires ram.Valid() && WellFormed(ram.State())
    requires Tree(ram.Memory(), ram.FrameBase(), root, tables)
    requires p in tables && pt == ram.Frame(p)
    requires HeldBut(ram.State(), ram.Usable(), tables, gone) && SubTree(tables, tables[p]) !! gone
    modifies ram.words, ram.book
    ensures multiset(freed) == multiset(SubTree(tables, tables[p]))
    ensures ram.State() == Without(old(ram.State()), SubTree(tables, tables[p])) && WellFormed(ram.State())
    ensures HeldBut(ram.State(), ram.Usable(), tables, gone + SubTree(tables, tables[p]))
    ensures Tree(ram.Memory(), ram.FrameBase(), root, tables)
    ensures PagesKept(old(ram.Memory()), ram.Memory(), SubTree(tables, tables[p]))
    ensures Cleared(ram.Memory(), tables, SubTree(tables, tables[p]))
    decreases Level(tables[p])
  {
    hide Tree, RunsOf, IsValid, IsLeaf, Target, Entry, HeldBut, Without, WellFormed, SubTree, FirstBelow, Cleared, PagesKept,
      PathsOf, Cut, Under, HungFrom, IsPath, Child, Bit, Freeing, WithEntry;
    ghost var h, r0, mem0, fb := tables[p], ram.State(), ram.Memory(), ram.FrameBase();
    FirstAll(mem0, fb, root, tables, h, p);
    FirstNone(tables, h);
    freed := [];
    FreedNone(r0, mem0, ram.Usable(), fb, root, tables, gone);
    var i := 0;
    while i < 512
      invariant 0 <= i <= 512
      invariant multiset(freed) == multiset(FirstBelow(tables, h, i))
      invariant Freeing(r0, mem0, ram.State(), ram.Memory(), ram.Usable(), fb, root, tables, p, gone, FirstBelow(tables, h, i))
      invariant h.Low? ==> EmptyUpTo(ram.Memory(), p, i)
    {
      ghost var first, mem, r := FirstBelow(tables, h, i), ram.Memory(), ram.State();
      FreeingParts(r0, mem0, r, mem, ram.Usable(), fb, root, tables, p, gone, first);
      var entry := ReadEntry(ram, pt, i, p);
      FirstStep(tables, h, i);
      EntryKind(mem, fb, root, tables, p, i);
      if IsValid(entry) {
        if !IsLeaf(entry) {
          ghost var more, sub := [], SubTree(tables, Below(h, i));
          ChildGone(tables, h, i, gone);
          more := MmuFree(ram, Target(entry), Child(fb, entry), root, tables, gone + first);
          FreedStep(freed, more, first, sub);
          freed := freed + more;
          SubStep(r0, mem0, r, mem, ram.State(), ram.Memory(), ram.Usable(), fb, root, tables, p, gone, first, sub);
        } else {
          WriteEntry(ram, pt, i, 0, p);
          LeafStep(r0, mem0, r, mem, ram.Usable(), fb, root, tables, p, gone, first, i);
        }
      } else {
        EmptyNext(mem, p, i);
      }
      i := i + 1;
    }
    ghost var first := FirstBelow(tables, h, 512);
    FreeingParts(r0, mem0, ram.State(), ram.Memory(), ram.Usable(), fb, root, tables, p, gone, first);
    FreeLast(r0, mem0, ram.State(), ram.Memory(), ram.total, ram.Usable(), fb, root, tables, p, gone, first);
    ram.LocationOf(p);
    ram.PageFree(pt);
    FreedStep(freed, [p], first, {p});
    freed := freed + [p];
  }

  /** Midway through mmu_free of p: the tables in `first` are freed, and only p's own words and theirs may differ. */
  ghost predicate Freeing(r0: Runs, mem0: seq<u64>, r: Runs, mem: seq<u64>, usable: nat, fb: nat, root: nat, tables: Tables,
                          p: nat, gone: set<nat>, first: set<nat>)
  {
    && r == Without(r0, first) && WellFormed(r) && HeldBut(r, usable, tables, gone + first)
    && Tree(mem, fb, root, tables) && PagesKept(mem0, mem, first + {p}) && Cleared(mem, tables, first)
  }

  /** The first i entries of table p are not valid. */
  ghost predicate EmptyUpTo(mem: seq<u64>, p: nat, i: nat)
  {
    forall k :: 0 <= k < i ==> !IsValid(Entry(mem, p, k))
  }

  lemma EmptyNext(mem: seq<u64>, p: nat, i: nat)
    requires !IsValid(Entry(mem, p, i))
    ensures EmptyUpTo(mem, p, i) ==> EmptyUpTo(mem, p, i + 1)
  {
  }

  lemma FreeingParts(r0: Runs, mem0: seq<u64>, r: Runs, mem: seq<u64>, usable: nat, fb: nat, root: nat, tables: Tables,
                     p: nat, gone: set<nat>, first: set<nat>)
    requires Freeing(r0, mem0, r, mem, usable, fb, root, tables, p, gone, first) && p in tables
    ensures WellFormed(r) && HeldBut(r, usable, tables, gone + first) && Tree(mem, fb, root, tables)
    ensures (p + 1) * PAGE_WORDS <= |mem|
  {
    TableInMemory(mem, fb, root, tables, p);
  }

  lemma FreedNone(r: Runs, mem: seq<u64>, usable: nat, fb: nat, root: nat, tables: Tables, gone: set<nat>)
    requires HeldBut(r, usable, tables, gone) && WellFormed(r) && Tree(mem, fb, root, tables)
    ensures forall p: nat :: Freeing(r, mem, r, mem, usable, fb, root, tables, p, gone, {})
    ensures forall p: nat :: EmptyUpTo(mem, p, 0)
  {
    hide Tree, HeldBut, WellFormed;
    assert gone + {} == gone;
    assert Without(r, {}) == r;
  }

  lemma FirstStep(tables: Tables, h: Path, i: nat)
    ensures h.Low? ==> FirstBelow(tables, h, i + 1) == FirstBelow(tables, h, i) == {}
    ensures !h.Low? ==>
      && FirstBelow(tables, h, i + 1) == FirstBelow(tables, h, i) + SubTree(tables, Below(h, i))
      && FirstBelow(tables, h, i) !! SubTree(tables, Below(h, i))
      && (SubTree(tables, Below(h, i)) == {} ==> FirstBelow(tables, h, i + 1) == FirstBelow(tables, h, i))
  {
    if !h.Low? { FirstNext(tables, h, i); }
  }

  lemma FreedStep(freed: seq<nat>, more: seq<nat>, first: set<nat>, sub: set<nat>)
    requires multiset(freed) == multiset(first) && multiset(more) == multiset(sub) && first !! sub
    ensures multiset(freed + more) == multiset(first + sub)
  {
    assert multiset(first + sub) == multiset(first) + multiset(sub);
  }

  /** What an entry of a tree's table can be. */
  lemma EntryKind(mem: seq<u64>, fb: nat, root: nat, tables: Tables, p: nat, i: nat)
    requires Tree(mem, fb, root, tables) && p in tables && i < ENTRIES
    ensures !IsValid(0)
    ensures var e, h := Entry(mem, p, i), tables[p];
      if !IsValid(e) then h.Low? || SubTree(tables, Below(h, i)) == {}
      else if IsLeaf(e) then h.Low?
      else !h.Low? && Child(fb, e) in tables && tables[Child(fb, e)] == Below(h, i)
           && Target(e) == fb + Child(fb, e) * PAGE_SIZE
  {
    hide Target, SubTree, Entry, HungFrom;
    if !IsValid(Entry(mem, p, i)) && !tables[p].Low? {
      NothingBelow(mem, fb, root, tables, p, i);
    }
  }

  lemma ChildGone(tables: Tables, h: Path, i: nat, gone: set<nat>)
    requires !h.Low? && SubTree(tables, h) !! gone && FirstBelow(tables, h, i) !! SubTree(tables, Below(h, i))
    ensures SubTree(tables, Below(h, i)) !! gone + FirstBelow(tables, h, i)
  {
    forall q | q in SubTree(tables, Below(h, i)) ensures q in SubTree(tables, h) { }
  }

  lemma SubStep(r0: Runs, mem0: seq<u64>, r: Runs, mem: seq<u64>, r': Runs, mem': seq<u64>, usable: nat, fb: nat, root: nat,
                tables: Tables, p: nat, gone: set<nat>, first: set<nat>, sub: set<nat>)
    requires Freeing(r0, mem0, r, mem, usable, fb, root, tables, p, gone, first)
    requires r' == Without(r, sub) && WellFormed(r') && HeldBut(r', usable, tables, gone + first + sub)
    requires Tree(mem', fb, root, tables) && PagesKept(mem, mem', sub) && Cleared(mem', tables, sub) && first !! sub
    ensures Freeing(r0, mem0, r', mem', usable, fb, root, tables, p, gone, first + sub)
  {
    hide Tree, HeldBut, WellFormed, Cleared, Without, PagesKept;
    assert gone + first + sub == gone + (first + sub);
    WithoutMore(r0, first, sub);
    ClearedStep(mem0, mem, mem', tables, first, sub, p);
  }

  lemma ClearedStep(mem0: seq<u64>, mem: seq<u64>, mem': seq<u64>, tables: Tables, first: set<nat>, sub: set<nat>, p: nat)
    requires PagesKept(mem0, mem, first + {p}) && PagesKept(mem, mem', sub) && first !! sub
    requires Cleared(mem, tables, first) && Cleared(mem', tables, sub)
    ensures PagesKept(mem0, mem', first + sub + {p}) && Cleared(mem', tables, first + sub)
  {
    hide IsValid;
    forall q, i | q in first && q in tables && tables[q].Low? && 0 <= i < ENTRIES ensures !IsValid(Entry(mem', q, i)) {
      assert !IsValid(Entry(mem, q, i));
      EntryInPage(q, i);
    }
  }

  lemma LeafStep(r0: Runs, mem0: seq<u64>, r: Runs, mem: seq<u64>, usable: nat, fb: nat, root: nat,
                 tables: Tables, p: nat, gone: set<nat>, first: set<nat>, i: nat)
    requires Freeing(r0, mem0, r, mem, usable, fb, root, tables, p, gone, first) && first == {}
    requires p in tables && tables[p].Low? && i < ENTRIES && (p + 1) * PAGE_WORDS <= |mem|
    ensures Freeing(r0, mem0, r, WithEntry(mem, p, i, 0), usable, fb, root, tables, p, gone, first)
    ensures EmptyUpTo(mem, p, i) ==> EmptyUpTo(WithEntry(mem, p, i, 0), p, i + 1)
  {
    hide Tree, HeldBut, WellFormed, Without, IsLeaf;
    LeafTree(mem, fb, root, tables, p, i, 0);
    EntryInPage(p, i);
  }

  /** Last of all the table itself goes: cutting its one-page run frees exactly its page. */
  lemma FreeLast(r0: Runs, mem0: seq<u64>, r: Runs, mem: seq<u64>, total: nat, usable: nat, fb: nat, root: nat,
                 tables: Tables, p: nat, gone: set<nat>, first: set<nat>)
    requires Freeing(r0, mem0, r, mem, usable, fb, root, tables, p, gone, first) && p in tables && p !in gone + first
    requires tables[p].Low? ==> EmptyUpTo(mem, p, ENTRIES)
    ensures 1 <= p < usable && p in r.taken && Cut(r, total, p) == Without(r0, first + {p})
    ensures HeldBut(Cut(r, total, p), usable, tables, gone + (first + {p}))
    ensures PagesKept(mem0, mem, first + {p}) && Cleared(mem, tables, first + {p})
  {
    hide Cut, Without, Tree;
    CutOne(r, total, p);
    HeldButMore(r, usable, tables, gone + first, {p});
    assert gone + first + {p} == gone + (first + {p});
    WithoutMore(r0, first, {p});
  }
}
