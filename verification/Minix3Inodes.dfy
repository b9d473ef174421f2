/** The inode bitmap and the search for a free inode (minix3.c). */
module Minix3Inodes {
  import opened Bytes
  import opened Arith
  import opened Minix3Layout
  import opened Minix3Slots
  import opened Minix3Files
  import opened Minix3Disk

  /** The range test of minix3_is_inode_in_range, which lets one number past the table through. */
  predicate InSearchRange(sb: Superblock, i: nat) { 1 <= i <= sb.numInodes + 1 }

  method IsInodeInRange(fs: FileStore, i: nat) returns (inRange: bool)
    requires fs.Mounted()
    ensures inRange == InSearchRange(fs.sb, i)
  {
    if i == 0 {
      return false;
    }
    var s := fs.GetSuperblock();
    inRange := i - 1 <= s.numInodes;
  }

  method IsInodeOccupied(fs: FileStore, i: nat) returns (occupied: bool)
    requires fs.Mounted() && i <= fs.sb.numInodes + 1
    ensures occupied == (i in fs.Vol().inodeMap)
    ensures i > 0 ==> 1024 + fs.bs + (i - 1) / 8 < fs.dev.data.Length
    ensures i > 0 ==>
      (occupied <==> fs.dev.data[1024 + fs.bs + (i - 1) / 8] as int / Pow(2, (i - 1) % 8) % 2 == 1)
  {
    hide Fits, Bit, Pow;
    if i == 0 {
      return false;
    }
    InodeBitBounds(fs.sb, fs.dev.Image(), i);
    var begin := BOOT_BLOCK_SIZE + fs.bs;
    var imapByte := fs.ReadBitmapByte(begin, i - 1);
    occupied := Bit(imapByte, (i - 1) % 8);
    BitIs(imapByte, (i - 1) % 8);
    assert occupied == InodeBit(fs.sb, fs.dev.Image(), i);
  }

  /** minix3_set_inode_as; marking a marked inode or clearing a clear one reports an error and changes nothing. */
  method SetInodeAs(fs: FileStore, i: nat, on: bool) returns (code: int)
    requires fs.Mounted() && i <= fs.sb.numInodes + 1
    modifies fs.dev.data
    ensures fs.Mounted()
    ensures i == 0 ==> code == 5 && fs.Vol() == old(fs.Vol())
    ensures i != 0 ==> code == 0 && fs.Vol() == old(fs.Vol()).(
              inodeMap := if on then old(fs.Vol()).inodeMap + {i} else old(fs.Vol()).inodeMap - {i})
  {
    hide Fits, Meaning, Bit, ByteWithBit, Times, Splice, BitSet, BitmapBit, InodeBit, Sized;
    if i == 0 {
      return INODE_INVALID;
    }
    var n := i - 1;
    var begin := BOOT_BLOCK_SIZE + fs.bs;
    InodeBitBounds(fs.sb, fs.dev.Image(), i);
    var inodeByte := fs.ReadBitmapByte(begin, n);
    var occupied := IsInodeOccupied(fs, i);
    var inRange := IsInodeInRange(fs, i);
    if on != occupied && inRange {
      inodeByte := ByteWithBit(inodeByte, n % 8, on);
    }
    ghost var img := fs.dev.Image();
    fs.WriteBitmapByte(begin, n, inodeByte);
    InodeBitWritten(fs.sb, img, i, on, occupied, fs.dev.Image());
    return 0;
  }

  lemma InodeBitWritten(sb: Superblock, img: seq<byte>, i: nat, on: bool, occupied: bool, img': seq<byte>)
    requires Fits(sb, img) && InSearchRange(sb, i) && occupied == (i in Meaning(sb, img).inodeMap)
    requires ImapAt(sb) + (i - 1) / 8 < |img|
    requires var at, n := ImapAt(sb) + (i - 1) / 8, (i - 1) % 8;
             img' == Splice(img, at, [if on != occupied then ByteWithBit(img[at], n, on) else img[at]])
    ensures Fits(sb, img')
    ensures Meaning(sb, img') == Meaning(sb, img).(
              inodeMap := if on then Meaning(sb, img).inodeMap + {i} else Meaning(sb, img).inodeMap - {i})
  {
    hide Fits, Meaning, Bit, ByteWithBit, BitmapBit, InodeBit;
    if on != occupied {
      OnInodeBitWrite(sb, img, i, on, img');
    } else {
      SameByte(img, ImapAt(sb) + (i - 1) / 8);
    }
  }

  // ---- the search ------------------------------------------------------------

  /** The lowest unmarked number in [lo, hi]. */
  function LeastFree(inodeMap: set<nat>, lo: nat, hi: nat): (r: Option<nat>)
    ensures r.Some? ==> lo <= r.value <= hi && r.value !in inodeMap && (forall i :: lo <= i < r.value ==> i in inodeMap)
    ensures r.None? ==> forall i :: lo <= i <= hi ==> i in inodeMap
    decreases hi + 1 - lo
  {
    if lo > hi then None else if lo !in inodeMap then Some(lo) else LeastFree(inodeMap, lo + 1, hi)
  }

  /** What the search finds: the lowest free number at or after the cursor, else the lowest of all. */
  function NextInode(sb: Superblock, inodeMap: set<nat>, cursor: nat): (r: Option<nat>)
    ensures r.Some? ==> InSearchRange(sb, r.value) && r.value !in inodeMap
    ensures r.None? <==> forall i :: 1 <= i <= sb.numInodes + 1 ==> i in inodeMap
  {
    var ahead := LeastFree(inodeMap, if cursor == 0 then 1 else cursor, sb.numInodes + 1);
    if ahead.Some? then ahead else LeastFree(inodeMap, 1, sb.numInodes + 1)
  }

  /**
   * The search hands out a number past the inode table exactly when the bit behind the table is unmarked and the
   * table has no free inode at or after the cursor: with free inodes before the cursor it still does not wrap.
   */
  lemma SearchLeavesTable(sb: Superblock, inodeMap: set<nat>, cursor: nat)
    requires cursor >= 1
    ensures NextInode(sb, inodeMap, cursor) == Some(sb.numInodes + 1) <==>
              sb.numInodes + 1 !in inodeMap
              && ((forall i :: cursor <= i <= sb.numInodes ==> i in inodeMap)
                  && (cursor <= sb.numInodes + 1 || forall i :: 1 <= i <= sb.numInodes ==> i in inodeMap))
  {
    var last := sb.numInodes + 1;
    var ahead := LeastFree(inodeMap, cursor, last);
    if last !in inodeMap && cursor <= last && forall i :: cursor <= i <= sb.numInodes ==> i in inodeMap {
      assert ahead.Some?;
    }
  }

  /** A two-inode table with only inode 2 taken and the cursor on it: inode 1 is free, the search gives 3. */
  lemma SearchLeavesTableFor(sb: Superblock)
    requires sb.numInodes == 2
    ensures NextInode(sb, {2}, 2) == Some(3) && !InTable(sb, 3)
  {
    assert LeastFree({2}, 2, 3) == LeastFree({2}, 3, 3) == Some(3);
  }

  /** One turn of the search loop that does not return. */
  function InodeTurn(sb: Superblock, cursor: nat): nat
  {
    (if InSearchRange(sb, cursor) then cursor else 1) + 1
  }

  function {:tailrecursion false} InodeTurns(sb: Superblock, cursor: nat, turns: nat): nat
  {
    if turns == 0 then cursor else InodeTurn(sb, InodeTurns(sb, cursor, turns - 1))
  }

  /** When every number is marked, no turn finds a free inode: the search never ends. */
  lemma {:induction false} SearchNeverEnds(sb: Superblock, inodeMap: set<nat>, cursor: nat, turns: nat)
    requires NextInode(sb, inodeMap, cursor).None?
    ensures var c := InodeTurns(sb, cursor, turns); (if InSearchRange(sb, c) then c else 1) in inodeMap
  {
  }

  /** minix3_get_available_inode, when there is one. */
  method GetAvailableInode(fs: FileStore) returns (i: nat)
    requires fs.Mounted() && NextInode(fs.sb, fs.Vol().inodeMap, fs.inodeCursor).Some?
    modifies fs`inodeCursor
    ensures fs.Mounted()
    ensures Some(i) == old(NextInode(fs.sb, fs.Vol().inodeMap, fs.inodeCursor)) && fs.inodeCursor == i
    ensures 1 <= i <= fs.sb.numInodes + 1 && i !in old(fs.Vol()).inodeMap
    // the lowest from the cursor on, or, when there is none, the lowest of all
    ensures var start := if old(fs.inodeCursor) == 0 then 1 else old(fs.inodeCursor);
      if exists j :: start <= j <= fs.sb.numInodes + 1 && j !in old(fs.Vol()).inodeMap
      then start <= i && forall j :: start <= j < i ==> j in old(fs.Vol()).inodeMap
      else forall j :: 1 <= j < i ==> j in old(fs.Vol()).inodeMap
  {
    hide Fits, Meaning;
    ghost var map0, found := fs.Vol().inodeMap, NextInode(fs.sb, fs.Vol().inodeMap, fs.inodeCursor);
    ghost var wrapped := false;
    while true
      invariant fs.Mounted() && fs.Vol().inodeMap == map0
      invariant found == NextInode(fs.sb, map0, fs.inodeCursor)
      invariant wrapped ==> found == LeastFree(map0, fs.inodeCursor, fs.sb.numInodes + 1)
      decreases !wrapped, fs.sb.numInodes + 2 - fs.inodeCursor
    {
      var inRange := IsInodeInRange(fs, fs.inodeCursor);
      if !inRange {
        fs.inodeCursor := 1;
        wrapped := true;
      }
      var occupied := IsInodeOccupied(fs, fs.inodeCursor);
      if !occupied {
        return fs.inodeCursor;
      }
      fs.inodeCursor := fs.inodeCursor + 1;
    }
  }
}
