/**
 * The on-disk format of the file store (minix3.h) and what each kind of write does to it.
 *
 * A disk image is one sequence of bytes.  `Volume` is what those bytes mean: the two bitmaps as sets, the inode
 * table and the data zones as maps.  Every lemma named On...Write says how patching a range of raw bytes
 * changes the volume, and that it changes nothing else.
 */
module Minix3Layout {
  import opened Bytes
  import Arith

  const BOOT_BLOCK_SIZE: nat := 1024
  const INODE_SIZE: nat := 64
  const SUPERBLOCK_SIZE: nat := 32

  const NZONES: nat := 10
  const IDZONE: nat := 7
  const IIDZONE: nat := 8
  const IIIDZONE: nat := 9

  datatype Superblock = Superblock(
    numInodes: u32, imapBlocks: u16, zoneBlocks: u16, firstDataZone: u16, numZones: u32, blockSize: u16)

  function DecodeSuperblock(b: seq<byte>): Superblock
    requires |b| >= SUPERBLOCK_SIZE
  {
    Superblock(U32(b, 0), U16(b, 6), U16(b, 8), U16(b, 10), U32(b, 20), U16(b, 28))
  }

  datatype Inode = Inode(
    mode: u16, nlinks: u16, uid: u16, gid: u16, size: u32, atime: u32, ctime: u32, mtime: u32, zones: seq<u32>)
  {
    predicate Wf() { |zones| == NZONES }
  }

  // ---- 32-bit words in a block ------------------------------------------

  function Word(b: seq<byte>, j: nat): u32
    requires 4 * j + 4 <= |b|
  {
    U32(b, 4 * j)
  }

  function PutWords(ws: seq<u32>): (b: seq<byte>)
    ensures |b| == 4 * |ws|
  {
    if ws == [] then [] else PutWords(ws[..|ws| - 1]) + Put32(ws[|ws| - 1])
  }

  lemma {:induction false} WordOfPut(ws: seq<u32>, j: nat)
    requires j < |ws|
    ensures Word(PutWords(ws), j) == ws[j]
  {
    var n := |ws| - 1;
    if j < n {
      WordOfPut(ws[..n], j);
    } else {
      assert U32(Put32(ws[n]), 0) == ws[n];
    }
  }

  /** Storing one pointer in a pointer block changes that pointer only. */
  lemma SetWord(b: seq<byte>, j: nat, v: u32, k: nat)
    requires 4 * j + 4 <= |b| && 4 * k + 4 <= |b|
    ensures Word(Splice(b, 4 * j, Put32(v)), k) == if k == j then v else Word(b, k)
  {
    var w, r := Put32(v), Splice(b, 4 * j, Put32(v));
    assert U32(w, 0) == v;
    if k == j {
      assert r[4 * j] == w[0] && r[4 * j + 1] == w[1] && r[4 * j + 2] == w[2] && r[4 * j + 3] == w[3];
    }
  }

  function DecodeInode(b: seq<byte>): (i: Inode)
    requires |b| == INODE_SIZE
    ensures i.Wf()
  {
    Inode(Word(b, 0) % 0x1_0000, Word(b, 0) / 0x1_0000, Word(b, 1) % 0x1_0000, Word(b, 1) / 0x1_0000,
          Word(b, 2), Word(b, 3), Word(b, 4), Word(b, 5),
          seq(NZONES, k requires 0 <= k < NZONES => Word(b, 6 + k)))
  }

  /** Two 16-bit fields side by side, as the one little-endian word they occupy. */
  function Halves(lo: u16, hi: u16): (w: u32)
    ensures w % 0x1_0000 == lo && w / 0x1_0000 == hi
  {
    lo as int + 0x1_0000 * (hi as int)
  }

  function InodeWords(i: Inode): (ws: seq<u32>)
    requires i.Wf()
    ensures |ws| == 16
  {
    [Halves(i.mode, i.nlinks), Halves(i.uid, i.gid), i.size, i.atime, i.ctime, i.mtime] + i.zones
  }

  function EncodeInode(i: Inode): (b: seq<byte>)
    requires i.Wf()
    ensures |b| == INODE_SIZE
  {
    PutWords(InodeWords(i))
  }

  lemma InodeRoundTrip(i: Inode)
    requires i.Wf()
    ensures DecodeInode(EncodeInode(i)) == i
  {
    var b, ws := EncodeInode(i), InodeWords(i);
    forall j | 0 <= j < 16 ensures Word(b, j) == ws[j] {
      WordOfPut(ws, j);
    }
    assert DecodeInode(b).zones == i.zones by {
      forall k | 0 <= k < NZONES ensures DecodeInode(b).zones[k] == i.zones[k] {
        assert Word(b, 6 + k) == ws[6 + k];
      }
    }
  }

  // ---- where everything lives -------------------------------------------

  function ImapAt(sb: Superblock): nat { BOOT_BLOCK_SIZE + sb.blockSize }
  function ZmapAt(sb: Superblock): nat { ImapAt(sb) + Arith.Times(sb.imapBlocks, sb.blockSize) }
  function ItabAt(sb: Superblock): nat { ZmapAt(sb) + Arith.Times(sb.zoneBlocks, sb.blockSize) }
  function InodeAt(sb: Superblock, i: nat): nat requires i >= 1 { ItabAt(sb) + (i - 1) * INODE_SIZE }
  function ZoneStart(sb: Superblock, z: nat): nat { Arith.Times(z, sb.blockSize) }
  function ZoneEnd(sb: Superblock): nat { sb.firstDataZone + sb.numZones }

  predicate InZones(sb: Superblock, z: nat) { sb.firstDataZone <= z < ZoneEnd(sb) }
  predicate InTable(sb: Superblock, i: nat) { 1 <= i <= sb.numInodes }

  /** The regions do not overlap, each bitmap is large enough, and byte addresses fit in 32 bits. */
  ghost predicate Fits(sb: Superblock, img: seq<byte>)
  {
    && sb.blockSize >= 64 && sb.blockSize % 64 == 0
    && sb.numInodes + 1 <= 8 * (Arith.Times(sb.imapBlocks, sb.blockSize))
    && sb.numZones <= 8 * (Arith.Times(sb.zoneBlocks, sb.blockSize))
    && sb.firstDataZone >= 1 && ZoneEnd(sb) < 0x1_0000_0000
    && ItabAt(sb) + sb.numInodes * INODE_SIZE <= ZoneStart(sb, sb.firstDataZone) <= ZoneStart(sb, ZoneEnd(sb))
    && ZoneStart(sb, ZoneEnd(sb)) <= |img| && ZoneStart(sb, ZoneEnd(sb)) < 0x1_0000_0000
    && SUPERBLOCK_SIZE + BOOT_BLOCK_SIZE <= |img|
    && DecodeSuperblock(img[BOOT_BLOCK_SIZE..BOOT_BLOCK_SIZE + SUPERBLOCK_SIZE]) == sb
  }

  lemma ZoneBounds(sb: Superblock, z: nat)
    requires InZones(sb, z)
    ensures ZoneStart(sb, sb.firstDataZone) <= ZoneStart(sb, z)
    ensures ZoneStart(sb, z) + sb.blockSize <= ZoneStart(sb, ZoneEnd(sb))
  {
    Arith.TimesMono(sb.firstDataZone, z, sb.blockSize);
    Arith.TimesMono(z + 1, ZoneEnd(sb), sb.blockSize);
  }

  /** The plain inequalities in Fits. */
  lemma FitsBounds(sb: Superblock, img: seq<byte>)
    requires Fits(sb, img)
    ensures sb.firstDataZone >= 1 && ZoneEnd(sb) < 0x1_0000_0000 && sb.blockSize >= 64 && sb.blockSize % 64 == 0
    ensures ZoneStart(sb, ZoneEnd(sb)) <= |img| && ZoneStart(sb, ZoneEnd(sb)) < 0x1_0000_0000
  {
  }

  lemma ZoneBitBounds(sb: Superblock, img: seq<byte>, z: nat)
    requires Fits(sb, img) && InZones(sb, z)
    ensures ZmapAt(sb) + (z - sb.firstDataZone) / 8 < |img|
  {
  }

  lemma InodeBitBounds(sb: Superblock, img: seq<byte>, i: nat)
    requires Fits(sb, img) && 1 <= i <= sb.numInodes + 1
    ensures ImapAt(sb) + (i - 1) / 8 < |img|
  {
  }

  lemma InodeBounds(sb: Superblock, img: seq<byte>, i: nat)
    requires Fits(sb, img) && InTable(sb, i)
    ensures InodeAt(sb, i) + INODE_SIZE <= |img|
  {
  }

  lemma ZonesApart(sb: Superblock, z: nat, y: nat)
    requires z < y
    ensures ZoneStart(sb, z) + sb.blockSize <= ZoneStart(sb, y)
  {
    Arith.TimesMono(z + 1, y, sb.blockSize);
  }

  // ---- what an image means ----------------------------------------------

  /** Which byte and bit of a bitmap hold number n. */
  predicate BitmapBit(img: seq<byte>, at: nat, n: nat)
    requires at + n / 8 < |img|
  {
    Bit(img[at + n / 8], n % 8)
  }

  datatype Volume = Volume(
    inodeMap: set<nat>,             // occupied inode numbers; one more than the table holds can be marked
    zoneMap: set<nat>,              // occupied zone numbers
    inodes: map<nat, Inode>,        // the whole inode table
    zones: map<nat, seq<byte>>)     // the whole data area

  predicate InodeBit(sb: Superblock, img: seq<byte>, i: nat)
    requires i >= 1 && ImapAt(sb) + (i - 1) / 8 < |img|
  {
    BitmapBit(img, ImapAt(sb), i - 1)
  }

  predicate ZoneBit(sb: Superblock, img: seq<byte>, z: nat)
    requires z >= sb.firstDataZone && ZmapAt(sb) + (z - sb.firstDataZone) / 8 < |img|
  {
    BitmapBit(img, ZmapAt(sb), z - sb.firstDataZone)
  }

  ghost function InodeMap(sb: Superblock, img: seq<byte>): set<nat>
    requires Fits(sb, img)
  {
    set i | 1 <= i <= sb.numInodes + 1 && InodeBit(sb, img, i)
  }

  ghost function ZoneMap(sb: Superblock, img: seq<byte>): set<nat>
    requires Fits(sb, img)
  {
    set z | sb.firstDataZone <= z < ZoneEnd(sb) && ZoneBit(sb, img, z)
  }

  ghost function InodeOf(sb: Superblock, img: seq<byte>, i: nat): Inode
    requires Fits(sb, img) && InTable(sb, i)
  {
    DecodeInode(img[InodeAt(sb, i)..InodeAt(sb, i) + INODE_SIZE])
  }

  ghost function ZoneOf(sb: Superblock, img: seq<byte>, z: nat): (b: seq<byte>)
    requires Fits(sb, img) && InZones(sb, z)
    ensures |b| == sb.blockSize
  {
    ZoneBounds(sb, z);
    img[ZoneStart(sb, z)..ZoneStart(sb, z) + sb.blockSize]
  }

  ghost function Meaning(sb: Superblock, img: seq<byte>): (v: Volume)
    requires Fits(sb, img)
  {
    Volume(InodeMap(sb, img), ZoneMap(sb, img),
           map i | 1 <= i <= sb.numInodes :: InodeOf(sb, img, i),
           map z | sb.firstDataZone <= z < ZoneEnd(sb) :: ZoneOf(sb, img, z))
  }

  // ---- byte for byte ------------------------------------------------------

  /** The struct mx3_inode in the 64 bytes at a: 16- and 32-bit numbers, the lowest byte first. */
  predicate InodeStruct(img: seq<byte>, a: nat, f: Inode)
  {
    && a + 64 <= |img| && |f.zones| == 10
    && f.mode == U16(img, a) && f.nlinks == U16(img, a + 2) && f.uid == U16(img, a + 4) && f.gid == U16(img, a + 6)
    && f.size == U32(img, a + 8) && f.atime == U32(img, a + 12)
    && f.ctime == U32(img, a + 16) && f.mtime == U32(img, a + 20)
    && forall k :: 0 <= k < 10 ==> f.zones[k] == U32(img, a + 24 + 4 * k)
  }

  lemma StructDecoded(img: seq<byte>, a: nat)
    requires a + 64 <= |img|
    ensures InodeStruct(img, a, DecodeInode(img[a..a + 64]))
  {
    var b := img[a..a + 64];
    forall j: nat | j < 16 ensures Word(b, j) == U32(img, a + 4 * j) {
    }
    ByteOrder(img, a);
    ByteOrder(img, a + 4);
    forall k | 0 <= k < 10 ensures DecodeInode(b).zones[k] == U32(img, a + 24 + 4 * k) {
      assert Word(b, 6 + k) == U32(img, a + 4 * (6 + k));
    }
  }

  lemma InodeAddress(sb: Superblock, i: nat, a: nat)
    requires i >= 1
    requires a == 1024 + sb.blockSize + sb.imapBlocks * sb.blockSize + sb.zoneBlocks * sb.blockSize + (i - 1) * 64
    ensures InodeAt(sb, i) == a
  {
    Arith.AsProduct(sb.imapBlocks, sb.blockSize);
    Arith.AsProduct(sb.zoneBlocks, sb.blockSize);
  }

  /** The inode table follows the boot block, the superblock's block and the two bitmaps. */
  lemma InodeBytes(sb: Superblock, img: seq<byte>, i: nat, a: nat)
    requires Fits(sb, img) && 1 <= i <= sb.numInodes
    requires a == 1024 + sb.blockSize + sb.imapBlocks * sb.blockSize + sb.zoneBlocks * sb.blockSize + (i - 1) * 64
    ensures i in Meaning(sb, img).inodes && InodeStruct(img, a, Meaning(sb, img).inodes[i])
  {
    hide Fits, DecodeInode, InodeAt, InodeStruct;
    InodeAddress(sb, i, a);
    InodeBounds(sb, img, i);
    StructDecoded(img, a);
    assert Meaning(sb, img).inodes[i] == InodeOf(sb, img, i);
  }

  /** Inode i is marked when bit (i - 1) % 8 of byte (i - 1) / 8 after the superblock's block is set. */
  lemma InodeMapBytes(sb: Superblock, img: seq<byte>, i: nat)
    requires Fits(sb, img) && 1 <= i <= sb.numInodes + 1
    ensures 1024 + sb.blockSize + (i - 1) / 8 < |img|
    ensures i in Meaning(sb, img).inodeMap
       <==> img[1024 + sb.blockSize + (i - 1) / 8] as int / Arith.Pow(2, (i - 1) % 8) % 2 == 1
  {
    hide Fits, Bit, Arith.Pow;
    InodeBitBounds(sb, img, i);
    BitIs(img[1024 + sb.blockSize + (i - 1) / 8], (i - 1) % 8);
  }

  /** Zone z is marked in the second bitmap, where the first data zone has number 0. */
  lemma ZoneMapBytes(sb: Superblock, img: seq<byte>, z: nat, a: nat)
    requires Fits(sb, img) && sb.firstDataZone <= z < sb.firstDataZone + sb.numZones
    requires a == 1024 + sb.blockSize + sb.imapBlocks * sb.blockSize + (z - sb.firstDataZone) / 8
    ensures a < |img|
    ensures z in Meaning(sb, img).zoneMap <==> img[a] as int / Arith.Pow(2, (z - sb.firstDataZone) % 8) % 2 == 1
  {
    hide Fits, Bit, Arith.Pow;
    ZoneBitBounds(sb, img, z);
    Arith.AsProduct(sb.imapBlocks, sb.blockSize);
    BitIs(img[a], (z - sb.firstDataZone) % 8);
  }

  /** Zone z is block z of the disk. */
  lemma ZonePlace(sb: Superblock, img: seq<byte>, z: nat, a: nat)
    requires Fits(sb, img) && sb.firstDataZone <= z < sb.firstDataZone + sb.numZones && a == z * sb.blockSize
    ensures a + sb.blockSize <= |img| && z in Meaning(sb, img).zones
    ensures Meaning(sb, img).zones[z] == img[a..a + sb.blockSize]
  {
    hide Fits;
    ZoneBounds(sb, z);
    FitsBounds(sb, img);
    Arith.AsProduct(z, sb.blockSize);
    assert Meaning(sb, img).zones[z] == ZoneOf(sb, img, z);
  }

  /** The struct mx3_superblock, 1024 bytes into the disk. */
  lemma SuperblockBytes(sb: Superblock, img: seq<byte>)
    requires Fits(sb, img)
    ensures |img| >= 1056
    ensures sb.numInodes == U32(img, 1024) && sb.imapBlocks == U16(img, 1030) && sb.zoneBlocks == U16(img, 1032)
    ensures sb.firstDataZone == U16(img, 1034) && sb.numZones == U32(img, 1044) && sb.blockSize == U16(img, 1052)
  {
  }

  lemma ZonePart(sb: Superblock, img: seq<byte>, z: nat, off: nat, size: nat)
    requires Fits(sb, img) && InZones(sb, z) && off + size <= sb.blockSize
    ensures ZoneStart(sb, z) + off + size <= |img|
    ensures z in Meaning(sb, img).zones && |Meaning(sb, img).zones[z]| == sb.blockSize
    ensures Meaning(sb, img).zones[z][off..off + size] == img[ZoneStart(sb, z) + off..ZoneStart(sb, z) + off + size]
  {
    ZoneBounds(sb, z);
    assert Meaning(sb, img).zones[z] == ZoneOf(sb, img, z);
    SliceOfSlice(img, ZoneStart(sb, z), sb.blockSize, off, size);
  }

  lemma SliceOfSlice<T>(s: seq<T>, at: nat, len: nat, off: nat, size: nat)
    requires at + len <= |s| && off + size <= len
    ensures s[at..at + len][off..off + size] == s[at + off..at + off + size]
  {
    var a, b := s[at..at + len][off..off + size], s[at + off..at + off + size];
    forall i | 0 <= i < size ensures a[i] == b[i] {
      assert s[at..at + len][off + i] == s[at + off + i];
    }
  }

  lemma SpliceOfSlice<T>(s: seq<T>, at: nat, len: nat, off: nat, b: seq<T>)
    requires at + len <= |s| && off + |b| <= len
    ensures Splice(s, at + off, b)[at..at + len] == Splice(s[at..at + len], off, b)
  {
  }

  // ---- what a write does ------------------------------------------------

  /** Bytes of [lo, hi) are the same in both images. */
  ghost predicate SameRange(a: seq<byte>, b: seq<byte>, lo: nat, hi: nat)
  {
    |a| == |b| && hi <= |a| && forall k :: lo <= k < hi ==> a[k] == b[k]
  }

  lemma SameSuperblock(sb: Superblock, a: seq<byte>, b: seq<byte>)
    requires Fits(sb, a) && SameRange(a, b, 0, ImapAt(sb))
    ensures Fits(sb, b)
  {
    assert a[BOOT_BLOCK_SIZE..BOOT_BLOCK_SIZE + SUPERBLOCK_SIZE] == b[BOOT_BLOCK_SIZE..BOOT_BLOCK_SIZE + SUPERBLOCK_SIZE];
  }

  lemma SameInodeMap(sb: Superblock, a: seq<byte>, b: seq<byte>)
    requires Fits(sb, a) && Fits(sb, b) && SameRange(a, b, ImapAt(sb), ZmapAt(sb))
    ensures InodeMap(sb, a) == InodeMap(sb, b)
  {
    forall i | 1 <= i <= sb.numInodes + 1 ensures InodeBit(sb, a, i) == InodeBit(sb, b, i) { }
  }

  lemma SameZoneMap(sb: Superblock, a: seq<byte>, b: seq<byte>)
    requires Fits(sb, a) && Fits(sb, b) && SameRange(a, b, ZmapAt(sb), ItabAt(sb))
    ensures ZoneMap(sb, a) == ZoneMap(sb, b)
  {
    forall z | sb.firstDataZone <= z < ZoneEnd(sb) ensures ZoneBit(sb, a, z) == ZoneBit(sb, b, z) { }
  }

  lemma SameInode(sb: Superblock, a: seq<byte>, b: seq<byte>, i: nat)
    requires Fits(sb, a) && Fits(sb, b) && InTable(sb, i)
    requires SameRange(a, b, InodeAt(sb, i), InodeAt(sb, i) + INODE_SIZE)
    ensures InodeOf(sb, a, i) == InodeOf(sb, b, i)
  {
    assert a[InodeAt(sb, i)..InodeAt(sb, i) + INODE_SIZE] == b[InodeAt(sb, i)..InodeAt(sb, i) + INODE_SIZE];
  }

  lemma SameTable(sb: Superblock, a: seq<byte>, b: seq<byte>)
    requires Fits(sb, a) && Fits(sb, b) && SameRange(a, b, ItabAt(sb), ZoneStart(sb, sb.firstDataZone))
    ensures Meaning(sb, a).inodes == Meaning(sb, b).inodes
  {
    forall i | 1 <= i <= sb.numInodes ensures InodeOf(sb, a, i) == InodeOf(sb, b, i) {
      SameInode(sb, a, b, i);
    }
  }

  lemma SameZone(sb: Superblock, a: seq<byte>, b: seq<byte>, z: nat)
    requires Fits(sb, a) && Fits(sb, b) && InZones(sb, z)
    requires SameRange(a, b, ZoneStart(sb, z), ZoneStart(sb, z) + sb.blockSize)
    ensures ZoneOf(sb, a, z) == ZoneOf(sb, b, z)
  {
    assert a[ZoneStart(sb, z)..ZoneStart(sb, z) + sb.blockSize] == b[ZoneStart(sb, z)..ZoneStart(sb, z) + sb.blockSize];
  }

  lemma SameData(sb: Superblock, a: seq<byte>, b: seq<byte>)
    requires Fits(sb, a) && Fits(sb, b)
    requires SameRange(a, b, ZoneStart(sb, sb.firstDataZone), ZoneStart(sb, ZoneEnd(sb)))
    ensures Meaning(sb, a).zones == Meaning(sb, b).zones
  {
    forall z | sb.firstDataZone <= z < ZoneEnd(sb) ensures ZoneOf(sb, a, z) == ZoneOf(sb, b, z) {
      ZoneBounds(sb, z);
      SameZone(sb, a, b, z);
    }
  }

  /** img' is img with number n of the bitmap at `at` set or cleared. */
  ghost predicate BitSet(img: seq<byte>, at: nat, n: nat, on: bool, img': seq<byte>)
    requires at + n / 8 < |img|
  {
    img' == Splice(img, at + n / 8, [ByteWithBit(img[at + n / 8], n % 8, on)])
  }

  lemma BitmapAt(img: seq<byte>, at: nat, n: nat, on: bool, img': seq<byte>, m: nat)
    requires at + n / 8 < |img| && at + m / 8 < |img| && BitSet(img, at, n, on, img')
    ensures at + m / 8 < |img'| && BitmapBit(img', at, m) == if m == n then on else BitmapBit(img, at, m)
  {
    if m / 8 == n / 8 {
      assert m == n <==> m % 8 == n % 8;
    }
  }

  lemma ZoneBitAfter(sb: Superblock, img: seq<byte>, z: nat, on: bool, img': seq<byte>, y: nat)
    requires InZones(sb, z) && InZones(sb, y) && ZmapAt(sb) + (sb.numZones - 1) / 8 < |img|
    requires BitSet(img, ZmapAt(sb), z - sb.firstDataZone, on, img')
    ensures |img'| == |img| && ZoneBit(sb, img', y) == if y == z then on else ZoneBit(sb, img, y)
  {
    BitmapAt(img, ZmapAt(sb), z - sb.firstDataZone, on, img', y - sb.firstDataZone);
  }

  lemma InodeBitAfter(sb: Superblock, img: seq<byte>, i: nat, on: bool, img': seq<byte>, k: nat)
    requires 1 <= i <= sb.numInodes + 1 && 1 <= k <= sb.numInodes + 1 && ImapAt(sb) + sb.numInodes / 8 < |img|
    requires BitSet(img, ImapAt(sb), i - 1, on, img')
    ensures |img'| == |img| && InodeBit(sb, img', k) == if k == i then on else InodeBit(sb, img, k)
  {
    BitmapAt(img, ImapAt(sb), i - 1, on, img', k - 1);
  }

  lemma ZoneMapAfter(sb: Superblock, img: seq<byte>, z: nat, on: bool, img': seq<byte>)
    requires Fits(sb, img) && Fits(sb, img') && InZones(sb, z)
    requires BitSet(img, ZmapAt(sb), z - sb.firstDataZone, on, img')
    ensures ZoneMap(sb, img') == if on then ZoneMap(sb, img) + {z} else ZoneMap(sb, img) - {z}
  {
    forall y | sb.firstDataZone <= y < ZoneEnd(sb)
      ensures y in ZoneMap(sb, img') <==> if y == z then on else y in ZoneMap(sb, img)
    {
      ZoneBitAfter(sb, img, z, on, img', y);
    }
  }

  lemma InodeMapAfter(sb: Superblock, img: seq<byte>, i: nat, on: bool, img': seq<byte>)
    requires Fits(sb, img) && Fits(sb, img') && 1 <= i <= sb.numInodes + 1
    requires BitSet(img, ImapAt(sb), i - 1, on, img')
    ensures InodeMap(sb, img') == if on then InodeMap(sb, img) + {i} else InodeMap(sb, img) - {i}
  {
    forall k | 1 <= k <= sb.numInodes + 1
      ensures k in InodeMap(sb, img') <==> if k == i then on else k in InodeMap(sb, img)
    {
      InodeBitAfter(sb, img, i, on, img', k);
    }
  }

  lemma OnZoneBitWrite(sb: Superblock, img: seq<byte>, z: nat, on: bool, img': seq<byte>)
    requires Fits(sb, img) && InZones(sb, z) && BitSet(img, ZmapAt(sb), z - sb.firstDataZone, on, img')
    ensures Fits(sb, img')
    ensures Meaning(sb, img') == Meaning(sb, img).(
              zoneMap := if on then Meaning(sb, img).zoneMap + {z} else Meaning(sb, img).zoneMap - {z})
  {
    SameSuperblock(sb, img, img');
    SameInodeMap(sb, img, img');
    SameTable(sb, img, img');
    SameData(sb, img, img');
    ZoneMapAfter(sb, img, z, on, img');
  }

  lemma OnInodeBitWrite(sb: Superblock, img: seq<byte>, i: nat, on: bool, img': seq<byte>)
    requires Fits(sb, img) && 1 <= i <= sb.numInodes + 1 && BitSet(img, ImapAt(sb), i - 1, on, img')
    ensures Fits(sb, img')
    ensures Meaning(sb, img') == Meaning(sb, img).(
              inodeMap := if on then Meaning(sb, img).inodeMap + {i} else Meaning(sb, img).inodeMap - {i})
  {
    SameSuperblock(sb, img, img');
    SameZoneMap(sb, img, img');
    SameTable(sb, img, img');
    SameData(sb, img, img');
    InodeMapAfter(sb, img, i, on, img');
  }

  lemma OnInodeWrite(sb: Superblock, img: seq<byte>, i: nat, inode: Inode)
    requires Fits(sb, img) && InTable(sb, i) && inode.Wf()
    ensures var img' := Splice(img, InodeAt(sb, i), EncodeInode(inode));
            Fits(sb, img') && Meaning(sb, img') == Meaning(sb, img).(inodes := Meaning(sb, img).inodes[i := inode])
  {
    var img' := Splice(img, InodeAt(sb, i), EncodeInode(inode));
    SameSuperblock(sb, img, img');
    SameInodeMap(sb, img, img');
    SameZoneMap(sb, img, img');
    SameData(sb, img, img');
    InodeRoundTrip(inode);
    forall k | 1 <= k <= sb.numInodes
      ensures InodeOf(sb, img', k) == if k == i then inode else InodeOf(sb, img, k)
    {
      if k == i {
        assert img'[InodeAt(sb, i)..InodeAt(sb, i) + INODE_SIZE] == EncodeInode(inode);
      } else {
        SameInode(sb, img, img', k);
      }
    }
  }

  lemma ZoneAfter(sb: Superblock, img: seq<byte>, z: nat, off: nat, b: seq<byte>, img': seq<byte>, y: nat)
    requires Fits(sb, img) && Fits(sb, img') && InZones(sb, z) && off + |b| <= sb.blockSize && InZones(sb, y)
    requires ZoneStart(sb, z) + off + |b| <= |img| && img' == Splice(img, ZoneStart(sb, z) + off, b)
    ensures ZoneOf(sb, img', y) == if y == z then Splice(ZoneOf(sb, img, z), off, b) else ZoneOf(sb, img, y)
  {
    ZoneBounds(sb, y);
    if y == z {
      SpliceOfSlice(img, ZoneStart(sb, z), sb.blockSize, off, b);
    } else {
      if y < z { ZonesApart(sb, y, z); } else { ZonesApart(sb, z, y); }
      SameZone(sb, img, img', y);
    }
  }

  lemma OnZoneWrite(sb: Superblock, img: seq<byte>, z: nat, off: nat, b: seq<byte>)
    requires Fits(sb, img) && InZones(sb, z) && off + |b| <= sb.blockSize
    ensures ZoneStart(sb, z) + off + |b| <= |img|
    ensures var img' := Splice(img, ZoneStart(sb, z) + off, b);
            Fits(sb, img')
            && Meaning(sb, img') == Meaning(sb, img).(
                 zones := Meaning(sb, img).zones[z := Splice(Meaning(sb, img).zones[z], off, b)])
  {
    ZoneBounds(sb, z);
    var img' := Splice(img, ZoneStart(sb, z) + off, b);
    SameSuperblock(sb, img, img');
    SameInodeMap(sb, img, img');
    SameZoneMap(sb, img, img');
    SameTable(sb, img, img');
    forall y | sb.firstDataZone <= y < ZoneEnd(sb)
      ensures ZoneOf(sb, img', y) == if y == z then Splice(ZoneOf(sb, img, z), off, b) else ZoneOf(sb, img, y)
    {
      ZoneAfter(sb, img, z, off, b, img', y);
    }
  }
}
