/** Reading files back (minix3_read_from_zone, minix3_read_from_file, minix3_read_whole_file). */
module Minix3Read {
  import opened Bytes
  import opened Arith
  import opened Minix3Layout
  import opened Minix3Slots
  import opened Minix3Files
  import opened Minix3Disk
  import opened Minix3Walker
  import opened Minix3Append

  /** Block k of a file's contents is its k-th data zone. */
  lemma {:induction false} ContentBlock(zs: Zones, f: Inode, bs: nat, n: nat, k: nat)
    requires bs >= 4 && f.Wf() && Sized(zs, bs) && Present(zs, f, bs / 4, n) && k < n
    ensures |Content(zs, f, bs / 4, n)| == Times(n, bs) && Times(k, bs) + bs <= Times(n, bs)
    ensures Content(zs, f, bs / 4, n)[Times(k, bs)..Times(k, bs) + bs] == zs[SlotZone(zs, f, bs / 4, Data(k))]
  {
    hide SlotZone;
    ContentLength(zs, f, bs, n);
    ContentLength(zs, f, bs, n - 1);
    if k < n - 1 {
      ContentBlock(zs, f, bs, n - 1, k);
    }
  }

  /** What a read of `len` bytes from the start of zone k copies. */
  lemma FilePart(zs: Zones, f: Inode, bs: nat, k: nat, len: nat)
    requires bs >= 4 && f.Wf() && Sized(zs, bs) && Present(zs, f, bs / 4, Count(f.size, bs)) && k < Count(f.size, bs)
    requires len <= bs && Times(k, bs) + len <= f.size
    ensures |FileBytes(zs, f, bs)| == f.size
    ensures FileBytes(zs, f, bs)[Times(k, bs)..Times(k, bs) + len] == zs[SlotZone(zs, f, bs / 4, Data(k))][..len]
  {
    hide SlotZone, Content;
    var n := Count(f.size, bs);
    var c := Content(zs, f, bs / 4, n);
    CountBounds(f.size, bs);
    ContentBlock(zs, f, bs, n, k);
    assert c[Times(k, bs)..Times(k, bs) + bs][..len] == c[Times(k, bs)..Times(k, bs) + len];
    assert FileBytes(zs, f, bs) == c[..f.size];
    assert c[..f.size][Times(k, bs)..Times(k, bs) + len] == c[Times(k, bs)..Times(k, bs) + len];
  }

  /** minix3_read_from_zone: the used part of one zone lands in the buffer at `to`. */
  method ReadFromZone(fs: FileStore, f: Inode, index: nat, fill: array<byte>, to: nat, ghost n: nat) returns (code: int)
    requires Walkable(fs, f, n) && n == Count(f.size, fs.bs) && index < n && fill != fs.dev.data
    requires to + Min(fs.bs, Remaining(f.size, fs.bs, index)) <= fill.Length
    modifies fs`zoneCursor, fill
    ensures code == 0 && fs.dev.Image() == old(fs.dev.Image()) && fs.Mounted() && fs.zoneCursor == old(fs.zoneCursor)
    ensures Times(index, fs.bs) <= f.size && |FileBytes(fs.Vol().zones, f, fs.bs)| == f.size
    ensures Times(index, fs.bs) + Min(fs.bs, Remaining(f.size, fs.bs, index)) <= f.size
    ensures fill[..] == Splice(old(fill[..]), to,
              FileBytes(fs.Vol().zones, f, fs.bs)[Times(index, fs.bs)..
                Times(index, fs.bs) + Min(fs.bs, Remaining(f.size, fs.bs, index))])
  {
    hide Fits, Meaning, Dense, Unshared, Count, Times, FileBytes, SlotZone;
    ghost var v := fs.Vol();
    ReadableZone(fs.sb, fs.bs, v, f, n, index);
    var zone, remaining := Gzbars(fs, f, index, n);
    if zone == 0 {
      return 1;
    }
    var readSize := if remaining < fs.bs then remaining else fs.bs;
    FilePart(v.zones, f, fs.bs, index, readSize);
    fs.ReadInZone(fill, to, zone, 0, readSize);
    return 0;
  }

  lemma ReadableZone(sb: Superblock, bs: nat, v: Volume, f: Inode, n: nat, index: nat)
    requires Sound(sb, bs, v, f, n) && n == Count(f.size, bs) && index < n
    ensures bs >= 4 && f.Wf() && Present(v.zones, f, bs / 4, n) && Sized(v.zones, bs)
    ensures SlotZone(v.zones, f, bs / 4, Data(index)) != 0 && InZones(sb, SlotZone(v.zones, f, bs / 4, Data(index)))
    ensures Times(index, bs) < f.size
  {
    forall k | 0 <= k < n ensures SlotZone(v.zones, f, bs / 4, Data(k)) in v.zones {
      assert Live(bs / 4, n, Data(k));
    }
    assert IsSlot(bs / 4, Data(index)) && Live(bs / 4, n, Data(index));
    LastZoneAt(f.size, bs, index);
  }

  // ---- ranges ------------------------------------------------------------------

  /**
   * The read loop copies whole blocks (or up to the end of the file) into a buffer of `size` bytes, as long as
   * some of `size` is left.  This is where its k-th copy ends.
   */
  function CopyEnd(bs: nat, fileSize: nat, start: nat, k: nat): nat
  {
    Times(k, bs) + (if start + Times(k, bs) + bs <= fileSize then bs
                    else if start + Times(k, bs) <= fileSize then fileSize - start - Times(k, bs) else 0)
  }

  /** No copy overruns the buffer. */
  ghost predicate CopiesFit(bs: nat, fileSize: nat, start: nat, size: nat)
  {
    forall k :: 0 <= k && Times(k, bs) < size ==> CopyEnd(bs, fileSize, start, k) <= size
  }

  /** A read inside the file is safe exactly when it ends on a block boundary or at the end of the file. */
  lemma CopiesFitIff(bs: nat, fileSize: nat, start: nat, size: nat)
    requires bs > 0 && start + size <= fileSize
    ensures CopiesFit(bs, fileSize, start, size) <==> size % bs == 0 || start + size == fileSize
  {
    AsQuotient(size, bs);
    QuotRest(size, bs);
    var q := Quot(size, bs);
    if size % bs != 0 && start + size != fileSize {
      assert Times(q, bs) < size < CopyEnd(bs, fileSize, start, q);
    } else {
      forall k | 0 <= k && Times(k, bs) < size ensures CopyEnd(bs, fileSize, start, k) <= size {
        if size % bs == 0 {
          TimesOrder(k, q, bs);
          TimesMono(k + 1, q, bs);
        }
      }
    }
  }

  /** For instance, the first ten bytes of a two-block file do not fit the buffer made for them. */
  lemma ShortReadOverruns()
    ensures !CopiesFit(1024, 2048, 0, 10)
  {
    assert Times(0, 1024) == 0;
    assert CopyEnd(1024, 2048, 0, 0) == 1024;
  }

  /** One turn of the read loop: the k-th copy extends what the buffer already holds of the file. */
  method CopyBlock(fs: FileStore, f: Inode, start: nat, fileBuffer: array<byte>, offset: nat, ghost n: nat,
                   ghost q: nat, ghost k: nat)
    returns (ghost len: nat)
    requires Walkable(fs, f, n) && n == Count(f.size, fs.bs) && fs.bs >= 4 && f.Wf() && fileBuffer != fs.dev.data
    requires |FileBytes(fs.Vol().zones, f, fs.bs)| == f.size && start + fileBuffer.Length <= f.size
    requires offset == Times(k, fs.bs) < fileBuffer.Length && start + offset == Times(q + k, fs.bs)
    requires CopiesFit(fs.bs, f.size, start, fileBuffer.Length)
    requires fileBuffer[..offset] == FileBytes(fs.Vol().zones, f, fs.bs)[start..start + offset]
    modifies fs`zoneCursor, fileBuffer
    ensures fs.Mounted() && fs.dev.Image() == old(fs.dev.Image()) && fs.zoneCursor == old(fs.zoneCursor)
    ensures len == Min(fs.bs, f.size - start - offset) && 0 < len && offset + len <= fileBuffer.Length
    ensures fileBuffer[..offset + len] == FileBytes(fs.Vol().zones, f, fs.bs)[start..start + offset + len]
  {
    hide Fits, Meaning, Dense, Unshared, Count, FileBytes, SlotZone, Sound, Remaining, CopiesFit, Splice, Times,
      CopyEnd, Quot;
    ghost var text := FileBytes(fs.Vol().zones, f, fs.bs);
    var targetZone := Quotient(start + offset, fs.bs);
    Multiple(q + k, fs.bs);
    ReadIndex(fs.bs, f.size, start, fileBuffer.Length, k, targetZone);
    ghost var before := fileBuffer[..];
    var _ := ReadFromZone(fs, f, targetZone, fileBuffer, offset, n);
    len := Min(fs.bs, f.size - start - offset);
    JoinParts(text, start, offset, len, before, fileBuffer[..]);
    assert before[..offset] == fileBuffer[..offset];
  }

  /** minix3_read_from_file, on the requests its copies fit in. */
  method ReadFromFile(fs: FileStore, f: Inode, start: nat, size0: nat, ghost n: nat) returns (r: Option<array<byte>>)
    requires Walkable(fs, f, n) && n == Count(f.size, fs.bs) && fs.bs > 0
    requires start + size0 <= f.size && start % fs.bs == 0 ==> CopiesFit(fs.bs, f.size, start, size0)
    modifies fs`zoneCursor
    ensures fs.Mounted() && fs.dev.Image() == old(fs.dev.Image()) && fs.zoneCursor == old(fs.zoneCursor)
    ensures f.Wf() && fs.bs >= 4
    ensures r.None? <==> start + size0 > f.size || start % fs.bs != 0
    ensures r.Some? ==>
      fresh(r.value) && |FileBytes(fs.Vol().zones, f, fs.bs)| == f.size
      && r.value[..] == FileBytes(fs.Vol().zones, f, fs.bs)[start..start + size0]
  {
    hide Fits, Meaning, Dense, Unshared, Count, FileBytes, SlotZone, Sound, Remaining, CopiesFit, Splice, Times,
      CopyEnd, Quot;
    IndirectPointer(fs.sb, fs.bs, fs.Vol(), f, n);
    if start > f.size {
      return None;
    }
    if start + size0 > f.size {
      return None;
    }
    if start % fs.bs != 0 {
      return None;
    }
    var fileBuffer := new byte[size0](_ => 0);
    var size: nat, offset: nat := size0, 0;
    ghost var k, text := 0, FileBytes(fs.Vol().zones, f, fs.bs);
    BlockAligned(start, fs.bs);
    ghost var q := Quot(start, fs.bs);
    FileLength(fs.sb, fs.bs, fs.Vol(), f, n);
    NoneCopied(fs.bs);
    while size != 0
      invariant fs.Mounted() && fs.dev.Image() == old(fs.dev.Image()) && fs.zoneCursor == old(fs.zoneCursor)
      invariant fresh(fileBuffer) && fileBuffer != fs.dev.data && size <= size0
      invariant fileBuffer[..size0 - size] == text[start..start + (size0 - size)]
      invariant size > 0 ==> offset == size0 - size == Times(k, fs.bs)
      invariant start + offset == Times(q + k, fs.bs)
    {
      ghost var len := CopyBlock(fs, f, start, fileBuffer, offset, n, q, k);
      if f.size > offset + start + fs.bs {
        offset := offset + fs.bs;
        size := size - fs.bs;
        NextMultiple(k, fs.bs);
        NextMultiple(q + k, fs.bs);
        k := k + 1;
      } else {
        size := size - (f.size - offset - start);
      }
    }
    assert fileBuffer[..] == fileBuffer[..size0];
    r := Some(fileBuffer);
  }

  /** minix3_read_whole_file */
  method ReadWholeFile(fs: FileStore, f: Inode, ghost n: nat) returns (r: Option<array<byte>>)
    requires Walkable(fs, f, n) && n == Count(f.size, fs.bs) && fs.bs > 0
    modifies fs`zoneCursor
    ensures fs.Mounted() && fs.dev.Image() == old(fs.dev.Image()) && fs.zoneCursor == old(fs.zoneCursor)
    ensures f.Wf() && fs.bs >= 4 && r.Some? && fresh(r.value)
    ensures r.value[..] == FileBytes(fs.Vol().zones, f, fs.bs)
  {
    hide Fits, Meaning, Dense, Unshared, Count, FileBytes, SlotZone, Sound;
    CopiesFitIff(fs.bs, f.size, 0, f.size);
    AsQuotient(0, fs.bs);
    r := ReadFromFile(fs, f, 0, f.size, n);
  }

  lemma BlockAligned(start: nat, bs: nat)
    requires bs > 0 && start % bs == 0
    ensures start == Times(Quot(start, bs), bs)
  {
    AsQuotient(start, bs);
    QuotRest(start, bs);
  }

  lemma FileLength(sb: Superblock, bs: nat, v: Volume, f: Inode, n: nat)
    requires Sound(sb, bs, v, f, n) && n == Count(f.size, bs)
    ensures bs >= 4 && f.Wf() && |FileBytes(v.zones, f, bs)| == f.size
  {
    CountBounds(f.size, bs);
    if n > 0 { ReadableZone(sb, bs, v, f, n, 0); }
    ContentLength(v.zones, f, bs, n);
  }

  /** The k-th copy of a read reads the zone of the file it should, and ends where CopyEnd says. */
  lemma ReadIndex(bs: nat, fileSize: nat, start: nat, size: nat, k: nat, index: nat)
    requires bs > 0 && start + size <= fileSize && Times(k, bs) < size && CopiesFit(bs, fileSize, start, size)
    requires start + Times(k, bs) == Times(index, bs)
    ensures index < Count(fileSize, bs)
    ensures CopyEnd(bs, fileSize, start, k) == Times(k, bs) + Min(bs, Remaining(fileSize, bs, index)) <= size
    ensures Times(k, bs) < CopyEnd(bs, fileSize, start, k)
    ensures CopyEnd(bs, fileSize, start, k) == Min(Times(k, bs) + bs, fileSize - start)
  {
    CountBounds(fileSize, bs);
    TimesOrder(index, Count(fileSize, bs), bs);
  }

  lemma NoneCopied(bs: nat)
    ensures Times(0, bs) == 0
  {
  }

  lemma JoinParts(text: seq<byte>, start: nat, offset: nat, len: nat, before: seq<byte>, after: seq<byte>)
    requires start + offset + len <= |text| && offset + len <= |before|
    requires before[..offset] == text[start..start + offset]
    requires after == Splice(before, offset, text[start + offset..start + offset + len])
    ensures after[..offset + len] == text[start..start + offset + len]
  {
  }

  // ---- append, then read ----------------------------------------------------------

  /** Appending to a file and reading it whole gives the bytes it said before, then the bytes appended. */
  method AppendThenRead(fs: FileStore, i: nat, buffer: array<byte>, size: nat) returns (r: Option<array<byte>>)
    requires fs.Mounted() && Consistent(fs.sb, fs.bs, fs.Vol(), fs.owner)
    requires i in FilesOf(fs.Vol(), fs.bs) && buffer != fs.dev.data && size <= buffer.Length
    requires Room(fs.bs, fs.Vol(), FreeAhead(fs.sb, fs.Vol().zoneMap, fs.zoneCursor), i, size)
    modifies fs.dev.data, fs`zoneCursor, fs`owner
    ensures fs.Mounted() && Consistent(fs.sb, fs.bs, fs.Vol(), fs.owner)
    ensures r.Some? && r.value[..] == FileBytes(old(fs.Vol()).zones, old(fs.Vol()).inodes[i], fs.bs) + old(buffer[..size])
  {
    hide Fits, Meaning, FreeAhead, Count, FileBytes, Consistent, Room;
    var _ := AppendToFile(fs, i, buffer, size);
    var f := fs.GetInode(i);
    ConsistentFacts(fs.sb, fs.bs, fs.Vol(), fs.owner, i);
    r := ReadWholeFile(fs, f, Count(f.size, fs.bs));
  }
}
