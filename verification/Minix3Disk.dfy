/**
 * The file store over a block device (minix3.c): superblock, bitmaps, inode table and raw zone I/O.
 *
 * FileStore holds the device and the two static search cursors.  Vol() is what the bytes on the device mean;
 * each method says how it changes Vol().
 */
module Minix3Disk {
  import opened Bytes
  import opened Arith
  import opened Minix3Layout
  import opened Minix3Slots
  import opened Minix3Files
  import opened Block

  datatype Option<+T> = None | Some(value: T)

  const ZONE_TOO_SMALL := 5
  const INODE_INVALID := 5

  /**
   * The free zones a search can still reach.  Cursor 0 means the search starts at the first data zone; a cursor
   * from 1 up to the first data zone reaches nothing.
   */
  ghost function FreeAhead(sb: Superblock, zoneMap: set<nat>, cursor: nat): set<nat>
  {
    set z | sb.firstDataZone <= z < ZoneEnd(sb) && (cursor == 0 || sb.firstDataZone <= cursor <= z) && z !in zoneMap
  }

  /** One turn of the search loop that does not return: a cursor out of range is reset to 0, then it advances. */
  function SearchTurn(sb: Superblock, cursor: nat): nat
  {
    (if InZones(sb, cursor) then cursor else 0) + 1
  }

  function {:tailrecursion false} SearchTurns(sb: Superblock, cursor: nat, turns: nat): nat
  {
    if turns == 0 then cursor else SearchTurn(sb, SearchTurns(sb, cursor, turns - 1))
  }

  /** A search that falls off the end of the zones stays at zone 1, below the data area, for ever. */
  lemma {:induction false} SearchOffTheEnd(sb: Superblock, cursor: nat, turns: nat)
    requires sb.firstDataZone > 1 && !InZones(sb, cursor) && turns > 0
    ensures SearchTurns(sb, cursor, turns) == 1 && !InZones(sb, 1)
  {
    if turns > 1 {
      SearchOffTheEnd(sb, cursor, turns - 1);
    } else {
      assert SearchTurns(sb, cursor, 0) == cursor;
    }
  }

  class FileStore {
    const dev: BlockDevice
    ghost const sb: Superblock
    const bs: nat                    // mx3_block_size
    var zoneCursor: nat              // test_available_zone_num
    var inodeCursor: nat             // test_available_inode_num
    ghost var owner: Owners

    /** What minix3_init leaves behind once it has found the magic number: the block size, and cursors at the start. */
    constructor (dev: BlockDevice, blockSize: nat, ghost sb: Superblock, ghost owner: Owners)
      ensures this.dev == dev && bs == blockSize && this.sb == sb && this.owner == owner
      ensures zoneCursor == 0 && inodeCursor == 1
    {
      this.dev, bs, this.sb, this.owner := dev, blockSize, sb, owner;
      zoneCursor, inodeCursor := 0, 1;
    }

    ghost predicate Mounted()
      reads dev.data
    {
      && dev.Valid() && dev.sector >= SUPERBLOCK_SIZE && BOOT_BLOCK_SIZE % dev.sector == 0
      && Fits(sb, dev.Image()) && bs == sb.blockSize
    }

    ghost function Vol(): (v: Volume)
      requires Mounted()
      reads dev.data
      ensures Sized(v.zones, bs) && forall z :: z in v.zones <==> InZones(sb, z)
      ensures forall i :: i in v.inodes <==> InTable(sb, i)
      ensures forall i :: i in v.inodes ==> v.inodes[i].Wf()
    {
      Meaning(sb, dev.Image())
    }

    /** minix3_get_superblock: the sector after the boot block, decoded afresh every time. */
    method GetSuperblock() returns (s: Superblock)
      requires Mounted()
      ensures s == sb
      ensures dev.data.Length >= 1056
      ensures s.numInodes == U32(dev.Image(), 1024)
      ensures s.imapBlocks == U16(dev.Image(), 1030) && s.zoneBlocks == U16(dev.Image(), 1032)
      ensures s.firstDataZone == U16(dev.Image(), 1034) && s.numZones == U32(dev.Image(), 1044)
      ensures s.blockSize == U16(dev.Image(), 1052)
    {
      SuperblockBytes(sb, dev.Image());
      var buffer := new byte[dev.sector](_ => 0);
      NextSector(dev.sector, BOOT_BLOCK_SIZE, dev.data.Length);
      var _ := dev.ReadWrite(buffer, BOOT_BLOCK_SIZE, BOOT_BLOCK_SIZE + dev.sector, In);
      assert buffer[..] == dev.Image()[BOOT_BLOCK_SIZE..BOOT_BLOCK_SIZE + dev.sector];
      assert buffer[..SUPERBLOCK_SIZE] == dev.Image()[BOOT_BLOCK_SIZE..BOOT_BLOCK_SIZE + SUPERBLOCK_SIZE];
      s := DecodeSuperblock(buffer[..SUPERBLOCK_SIZE]);
    }

    // ---- raw zone I/O ------------------------------------------------------

    /** block_read_arbitrary at an offset inside a zone. */
    method ReadInZone(buffer: array<byte>, to: nat, z: nat, off: nat, size: nat)
      requires Mounted() && InZones(sb, z) && off + size <= bs && to + size <= buffer.Length && buffer != dev.data
      modifies buffer
      ensures Mounted() && dev.Image() == old(dev.Image())
      ensures buffer[..] == Splice(old(buffer[..]), to, Vol().zones[z][off..off + size])
    {
      hide Fits, Meaning;
      ZonePart(sb, dev.Image(), z, off, size);
      var baddr := Product(bs, z);
      var _ := dev.ReadArbitrary(buffer, to, baddr + off, size);
    }

    /** block_write_arbitrary at an offset inside a zone. */
    method WriteInZone(buffer: array<byte>, from: nat, z: nat, off: nat, size: nat)
      requires Mounted() && InZones(sb, z) && off + size <= bs && from + size <= buffer.Length && buffer != dev.data
      modifies dev.data
      ensures Mounted()
      ensures Vol() == old(Vol()).(
                zones := old(Vol()).zones[z := Splice(old(Vol()).zones[z], off, buffer[from..from + size])])
    {
      hide Fits, Meaning;
      OnZoneWrite(sb, dev.Image(), z, off, buffer[from..from + size]);
      var baddr := Product(bs, z);
      var _ := dev.WriteArbitrary(buffer, from, baddr + off, size);
    }

    // ---- the zone bitmap ---------------------------------------------------

    method IsZoneOccupied(z: nat) returns (occupied: bool)
      requires Mounted() && InZones(sb, z)
      ensures occupied == (z in Vol().zoneMap)
      ensures 1024 + bs + Times(sb.imapBlocks, bs) + (z - sb.firstDataZone) / 8 < dev.data.Length
      ensures occupied <==> dev.data[1024 + bs + Times(sb.imapBlocks, bs) + (z - sb.firstDataZone) / 8] as int
                            / Pow(2, (z - sb.firstDataZone) % 8) % 2 == 1
    {
      hide Fits, Bit, Pow;
      ZoneBitBounds(sb, dev.Image(), z);
      var s := GetSuperblock();
      var n := z - s.firstDataZone;
      var imapSize := Product(s.imapBlocks, bs);
      var begin := BOOT_BLOCK_SIZE + bs + imapSize;
      var zoneByte := ReadBitmapByte(begin, n);
      occupied := Bit(zoneByte, n % 8);
      BitIs(zoneByte, n % 8);
      assert occupied == ZoneBit(sb, dev.Image(), z);
    }

    method IsZoneInRange(z: nat) returns (inRange: bool)
      requires Mounted()
      ensures inRange == InZones(sb, z)
      ensures inRange <==> sb.firstDataZone <= z < sb.firstDataZone + sb.numZones
    {
      var s := GetSuperblock();
      inRange := z >= s.firstDataZone && z - s.firstDataZone < s.numZones;
    }

    /** Read the byte that holds bit n of the bitmap at `begin`. */
    method ReadBitmapByte(begin: nat, n: nat) returns (b: byte)
      requires dev.Valid() && begin + n / 8 < dev.data.Length
      ensures b == dev.Image()[begin + n / 8]
    {
      var buffer := new byte[1](_ => 0);
      var _ := dev.ReadArbitrary(buffer, 0, begin + n / 8, 1);
      b := buffer[..][0];
    }

    method WriteBitmapByte(begin: nat, n: nat, b: byte)
      requires dev.Valid() && begin + n / 8 < dev.data.Length
      modifies dev.data
      ensures dev.Image() == Splice(old(dev.Image()), begin + n / 8, [b])
    {
      var buffer := new byte[1](_ => b);
      var _ := dev.WriteArbitrary(buffer, 0, begin + n / 8, 1);
      assert buffer[0..1] == [b];
    }

    /** minix3_set_zone_as; marking a marked zone or clearing a clear one reports an error and changes nothing. */
    method SetZoneAs(z: nat, on: bool) returns (code: int)
      requires Mounted() && z < ZoneEnd(sb)
      modifies dev.data
      ensures Mounted()
      ensures z < sb.firstDataZone ==> code == 5 && Vol() == old(Vol())
      ensures z >= sb.firstDataZone ==> code == 0 && Vol() == old(Vol()).(
                zoneMap := if on then old(Vol()).zoneMap + {z} else old(Vol()).zoneMap - {z})
    {
      hide Fits, Meaning, Bit, ByteWithBit, FreeAhead, Times, Splice, BitSet, BitmapBit, ZoneBit, Sized;
      FitsBounds(sb, dev.Image());
      var s := GetSuperblock();
      if z < s.firstDataZone {
        return ZONE_TOO_SMALL;
      }
      var n := z - s.firstDataZone;
      var imapSize := Product(s.imapBlocks, bs);
      var begin := BOOT_BLOCK_SIZE + bs + imapSize;
      ZoneBitBounds(sb, dev.Image(), z);
      var zoneByte := ReadBitmapByte(begin, n);
      var occupied := IsZoneOccupied(z);
      var inRange := IsZoneInRange(z);
      if on != occupied && inRange {
        zoneByte := ByteWithBit(zoneByte, n % 8, on);
      }
      ghost var img := dev.Image();
      WriteBitmapByte(begin, n, zoneByte);
      ZoneBitWritten(sb, img, z, on, occupied, dev.Image());
      return 0;
    }

    /** minix3_set_zone_to_zero */
    method SetZoneToZero(z: nat)
      requires Mounted() && InZones(sb, z)
      modifies dev.data
      ensures Mounted()
      ensures Vol() == old(Vol()).(zones := old(Vol()).zones[z := Zeros(bs)])
    {
      hide Fits, Meaning;
      FitsBounds(sb, dev.Image());
      var buffer := new byte[bs](_ => 0);
      WriteInZone(buffer, 0, z, 0, bs);
      assert Splice(old(Vol()).zones[z], 0, buffer[0..bs]) == Zeros(bs);
    }

    /**
     * minix3_get_available_zone: the lowest free zone at or after the cursor, zeroed but not yet marked.
     * None stands for the search falling off the end, from where it never returns (SearchOffTheEnd).
     */
    method GetAvailableZone() returns (r: Option<nat>)
      requires Mounted()
      modifies dev.data, `zoneCursor
      ensures Mounted()
      ensures var start := if old(zoneCursor) == 0 then sb.firstDataZone else old(zoneCursor);
        && (r.None? <==> start < sb.firstDataZone
                         || forall y :: start <= y < sb.firstDataZone + sb.numZones ==> y in old(Vol()).zoneMap)
        && (r.Some? ==> start <= r.value < sb.firstDataZone + sb.numZones && r.value !in old(Vol()).zoneMap
                        && forall y :: start <= y < r.value ==> y in old(Vol()).zoneMap)
      ensures r.None? <==> old(FreeAhead(sb, Vol().zoneMap, zoneCursor)) == {}
      ensures r.None? ==> Vol() == old(Vol()) && zoneCursor == 0
      ensures r.Some? ==>
        && r.value in old(FreeAhead(sb, Vol().zoneMap, zoneCursor))
        && (forall y :: y in old(FreeAhead(sb, Vol().zoneMap, zoneCursor)) ==> r.value <= y)
        && zoneCursor == r.value
        && Vol() == old(Vol()).(zones := old(Vol()).zones[r.value := Zeros(bs)])
        && FreeAhead(sb, Vol().zoneMap, zoneCursor) == old(FreeAhead(sb, Vol().zoneMap, zoneCursor))
    {
      hide Fits, Meaning, Sized;
      FitsBounds(sb, dev.Image());
      ghost var ahead := FreeAhead(sb, Vol().zoneMap, zoneCursor);
      ghost var v := Vol();
      if zoneCursor == 0 {
        var s := GetSuperblock();
        zoneCursor := s.firstDataZone;
      }
      ghost var start := zoneCursor;
      while true
        invariant Mounted() && dev.Image() == old(dev.Image()) && sb.firstDataZone >= 1
        invariant start <= zoneCursor && (start < sb.firstDataZone ==> zoneCursor == start)
        invariant forall y :: start <= y < zoneCursor ==> y in Vol().zoneMap
        invariant forall y: nat :: y in ahead <==>
            sb.firstDataZone <= zoneCursor <= y < ZoneEnd(sb) && y !in Vol().zoneMap
        decreases ZoneEnd(sb) - zoneCursor
      {
        var inRange := IsZoneInRange(zoneCursor);
        if !inRange {
          assert start >= sb.firstDataZone ==> zoneCursor >= sb.firstDataZone + sb.numZones;
          assert start >= sb.firstDataZone ==> forall y :: start <= y < sb.firstDataZone + sb.numZones ==> y in Vol().zoneMap;
          assert Vol() == old(Vol());
          zoneCursor := 0;
          return None;
        }
        var occupied := IsZoneOccupied(zoneCursor);
        if !occupied {
          assert zoneCursor in ahead;
          SetZoneToZero(zoneCursor);
          assert FreeAhead(sb, Vol().zoneMap, zoneCursor) == ahead;
          return Some(zoneCursor);
        }
        zoneCursor := zoneCursor + 1;
      }
    }

    /** Find a zone and mark it occupied, as every caller that attaches a pointer block does. */
    method TakePointerBlock() returns (z: nat)
      requires Mounted() && FreeAhead(sb, Vol().zoneMap, zoneCursor) != {}
      modifies dev.data, `zoneCursor
      ensures Mounted()
      ensures z in old(FreeAhead(sb, Vol().zoneMap, zoneCursor)) && InZones(sb, z) && z !in old(Vol()).zoneMap
      ensures Vol() == old(Vol()).(zones := old(Vol()).zones[z := Zeros(bs)], zoneMap := old(Vol()).zoneMap + {z})
      ensures FreeAhead(sb, Vol().zoneMap, zoneCursor) == old(FreeAhead(sb, Vol().zoneMap, zoneCursor)) - {z}
    {
      hide Fits, Meaning;
      FitsBounds(sb, dev.Image());
      var zeroes := new byte[bs](_ => 0);
      var r := GetAvailableZone();
      z := r.value;
      var _ := SetZoneAs(z, true);
      WriteInZone(zeroes, 0, z, 0, bs);
      assert Splice(Zeros(bs), 0, zeroes[0..bs]) == Zeros(bs);
    }

    // ---- inodes ------------------------------------------------------------

    /** Where minix3_inode_transfer_common finds inode i. */
    method InodeOffset(i: nat) returns (offset: nat)
      requires Mounted() && i >= 1
      ensures offset == InodeAt(sb, i)
    {
      hide Fits, Meaning;
      var s := GetSuperblock();
      var imapSize := Product(s.imapBlocks, bs);
      var zmapSize := Product(s.zoneBlocks, bs);
      offset := BOOT_BLOCK_SIZE + bs + imapSize + zmapSize + (i - 1) * INODE_SIZE;
    }

    method GetInode(i: nat) returns (f: Inode)
      requires Mounted() && InTable(sb, i)
      ensures i in Vol().inodes && f == Vol().inodes[i] && f.Wf()
      ensures InodeStruct(dev.Image(), 1024 + bs + Times(sb.imapBlocks, bs) + Times(sb.zoneBlocks, bs) + (i - 1) * 64, f)
    {
      hide Fits, DecodeInode, InodeStruct;
      InodeBounds(sb, dev.Image(), i);
      var buffer := new byte[INODE_SIZE](_ => 0);
      var offset := InodeOffset(i);
      var _ := dev.ReadArbitrary(buffer, 0, offset, INODE_SIZE);
      assert buffer[..] == dev.Image()[offset..offset + INODE_SIZE];
      f := DecodeInode(buffer[..]);
      assert Vol().inodes[i] == InodeOf(sb, dev.Image(), i);
      StructDecoded(dev.Image(), offset);
    }

    method PutInode(i: nat, f: Inode)
      requires Mounted() && InTable(sb, i) && f.Wf()
      modifies dev.data
      ensures Mounted()
      ensures Vol() == old(Vol()).(inodes := old(Vol()).inodes[i := f])
      ensures InodeStruct(dev.Image(), 1024 + bs + Times(sb.imapBlocks, bs) + Times(sb.zoneBlocks, bs) + (i - 1) * 64, f)
    {
      hide Fits, Meaning, EncodeInode, DecodeInode, InodeStruct;
      InodeBounds(sb, dev.Image(), i);
      OnInodeWrite(sb, dev.Image(), i, f);
      var encoded := EncodeInode(f);
      var buffer := new byte[INODE_SIZE](k requires 0 <= k < INODE_SIZE => encoded[k]);
      assert buffer[0..INODE_SIZE] == encoded;
      var offset := InodeOffset(i);
      var _ := dev.WriteArbitrary(buffer, 0, offset, INODE_SIZE);
      StructDecoded(dev.Image(), offset);
      InodeRoundTrip(f);
      assert dev.Image()[offset..offset + INODE_SIZE] == encoded;
    }
  }

  /** The bitmap byte written back, with bit z changed or, when there was nothing to change, as it was. */
  lemma ZoneBitWritten(sb: Superblock, img: seq<byte>, z: nat, on: bool, occupied: bool, img': seq<byte>)
    requires Fits(sb, img) && InZones(sb, z) && occupied == (z in Meaning(sb, img).zoneMap)
    requires ZmapAt(sb) + (z - sb.firstDataZone) / 8 < |img|
    requires var at, n := ZmapAt(sb) + (z - sb.firstDataZone) / 8, (z - sb.firstDataZone) % 8;
             img' == Splice(img, at, [if on != occupied then ByteWithBit(img[at], n, on) else img[at]])
    ensures Fits(sb, img')
    ensures Meaning(sb, img') == Meaning(sb, img).(
              zoneMap := if on then Meaning(sb, img).zoneMap + {z} else Meaning(sb, img).zoneMap - {z})
  {
    hide Fits, Meaning, Bit, ByteWithBit, BitmapBit, ZoneBit;
    if on != occupied {
      OnZoneBitWrite(sb, img, z, on, img');
    } else {
      SameByte(img, ZmapAt(sb) + (z - sb.firstDataZone) / 8);
    }
  }

  lemma SameByte(img: seq<byte>, at: nat)
    requires at < |img|
    ensures Splice(img, at, [img[at]]) == img
  {
  }

  lemma NextSector(sector: nat, a: nat, b: nat)
    requires sector > 0 && a % sector == 0 && b % sector == 0 && a < b
    ensures a + sector <= b && (a + sector) % sector == 0
  {
    var p, q := Quot(a, sector), Quot(b, sector);
    IsMultiple(a, sector);
    IsMultiple(b, sector);
    TimesOrder(p, q, sector);
    TimesMono(p + 1, q, sector);
    Multiple(p + 1, sector);
  }
}
