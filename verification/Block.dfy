/** Byte-granular reads and writes over a device that only moves whole sectors (block.c). */
module Block {
  import opened Bytes
  import Arith
  import Memory

  datatype Direction = In | Out

  /** Return codes of block_read_write. */
  const OK := 0
  const MISALIGNED := 1
  const BACKWARDS := 2
  const EMPTY := 3

  /** The sector bounds around a byte range stay inside a device of whole sectors. */
  lemma SectorsCover(sector: nat, start: nat, size: nat, capacity: nat)
    requires sector > 0 && capacity % sector == 0 && start + size <= capacity
    ensures start / sector * sector == Arith.Down(start, sector)
    ensures (start + size + sector - 1) / sector * sector == Arith.Up(start + size, sector)
    ensures Arith.Up(start + size, sector) <= capacity
    ensures Arith.Down(start, sector) % sector == 0 && Arith.Up(start + size, sector) % sector == 0
    ensures Arith.Down(start, sector) == Arith.Up(start + size, sector) <==> size == 0 && start % sector == 0
  {
    Arith.AsRounding(start, sector);
    Arith.AsRounding(start + size + sector - 1, sector);
    Arith.IsMultiple(capacity, sector);
    Arith.UpBelow(start + size, sector, Arith.Quot(capacity, sector));
    Arith.Multiple(Arith.Quot(start, sector), sector);
    Arith.Multiple(Arith.Quot(start + size + sector - 1, sector), sector);
    Arith.IsMultiple(start, sector);
    if size == 0 && start % sector == 0 {
      Arith.UpBelow(start, sector, Arith.Quot(start, sector));
    }
  }

  /** Patching a copy of the covering sectors and putting it back patches exactly the range. */
  lemma PatchSectors(img: seq<byte>, first: nat, last: nat, start: nat, b: seq<byte>)
    requires first <= start && start + |b| <= last <= |img|
    ensures Splice(img, first, Splice(img[first..last], start - first, b)) == Splice(img, start, b)
  {
  }

  class BlockDevice {
    const sector: nat
    const data: array<byte>

    ghost predicate Valid()
    {
      sector > 0 && data.Length % sector == 0
    }

    ghost function Image(): (s: seq<byte>)
      reads data
      ensures |s| == data.Length
    {
      data[..]
    }

    constructor (sector: nat, capacity: nat)
      requires sector > 0 && capacity % sector == 0
      ensures Valid() && this.sector == sector && data.Length == capacity && fresh(data)
    {
      this.sector := sector;
      data := new byte[capacity];
    }

    /** block_read_write: the driver's argument checks, then the transfer the device carries out. */
    method ReadWrite(buffer: array<byte>, start: nat, end: nat, direction: Direction) returns (code: int)
      requires Valid() && buffer != data
      requires end <= data.Length && end <= start + buffer.Length
      modifies if direction == In then buffer else data
      ensures code == if start % sector != 0 || end % sector != 0 then 1
                      else if start > end then 2 else if start == end then 3 else 0
      ensures code != OK ==> buffer[..] == old(buffer[..]) && Image() == old(Image())
      ensures code == OK && direction == In ==> buffer[..] == Splice(old(buffer[..]), 0, Image()[start..end])
      ensures code == OK && direction == Out ==>
        Image() == Splice(old(Image()), start, buffer[..end - start])
    {
      if start % sector != 0 { return MISALIGNED; }
      if end % sector != 0 { return MISALIGNED; }
      if start > end { return BACKWARDS; }
      if start == end { return EMPTY; }
      if direction == In {
        forall i | 0 <= i < end - start { buffer[i] := data[start + i]; }
      } else {
        forall i | start <= i < end { data[i] := buffer[i - start]; }
      }
      return OK;
    }

    /** The whole sectors around a byte range. */
    method SectorBounds(start: nat, size: nat) returns (first: nat, last: nat)
      requires Valid() && start + size <= data.Length
      ensures first <= start && start + size <= last <= data.Length && first % sector == 0 && last % sector == 0
      ensures first == last <==> size == 0 && start % sector == 0
    {
      SectorsCover(sector, start, size, data.Length);
      first, last := start / sector * sector, (start + size + sector - 1) / sector * sector;
    }

    /** block_read_arbitrary: `size` bytes from `start` land in buffer at `to`; an empty aligned request fails. */
    method ReadArbitrary(buffer: array<byte>, to: nat, start: nat, size: nat) returns (code: int)
      requires Valid() && buffer != data
      requires start + size <= data.Length && to + size <= buffer.Length
      modifies buffer
      ensures code == if size == 0 && start % sector == 0 then 1 else 0
      ensures buffer[..] == Splice(old(buffer[..]), to, Image()[start..start + size])
    {
      hide Arith.Up, Arith.Down;
      var first, last := SectorBounds(start, size);
      var tbuffer := new byte[last - first];
      code := ReadWrite(tbuffer, first, last, In);
      if code != OK {
        return 1;
      }
      assert tbuffer[start - first..start - first + size] == Image()[start..start + size];
      Memory.Memcpy(buffer, to, tbuffer, start - first, size);
      return 0;
    }

    /** block_write_arbitrary: read the covering sectors, patch them, write them back. */
    method WriteArbitrary(buffer: array<byte>, from: nat, start: nat, size: nat) returns (code: int)
      requires Valid() && buffer != data
      requires start + size <= data.Length && from + size <= buffer.Length
      modifies data
      ensures code == if size == 0 && start % sector == 0 then 1 else 0
      ensures Image() == Splice(old(Image()), start, buffer[from..from + size])
    {
      hide Arith.Up, Arith.Down;
      var first, last := SectorBounds(start, size);
      var tbuffer := new byte[last - first];
      code := ReadWrite(tbuffer, first, last, In);
      if code != OK {
        return 1;
      }
      assert tbuffer[..] == Image()[first..last];
      Memory.Memcpy(tbuffer, start - first, buffer, from, size);
      PatchSectors(Image(), first, last, start, buffer[from..from + size]);
      assert tbuffer[..last - first] == tbuffer[..];
      code := ReadWrite(tbuffer, first, last, Out);
      if code != OK {
        return 2;
      }
      return 0;
    }
  }
}
