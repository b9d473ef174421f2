/**
 * Copying between a kernel buffer and user memory (uaccess.c), page by page through a process's page table.  The
 * kernel buffer is an array of its own; user memory is the bytes of the page frames.
 */
module Uaccess {
  import opened Arith
  import opened Bytes
  import opened HeapPages
  import opened Mmu
  import opened Page

  // ---- bytes of words ----------------------------------------------------------------

  /** Byte k of a word, lowest first. */
  function ByteOf(w: nat, k: nat): byte
  {
    if k == 0 then w % 256 else ByteOf(w / 256, k - 1)
  }

  function WithByte(w: nat, k: nat, b: byte): nat
  {
    if k == 0 then w / 256 * 256 + b as int else WithByte(w / 256, k - 1, b) * 256 + w % 256
  }

  lemma {:induction false} WithByteBound(w: nat, k: nat, b: byte, n: nat)
    requires w < Pow(256, n) && k < n
    ensures WithByte(w, k, b) < Pow(256, n)
  {
    var q, p := w / 256, Pow(256, n - 1);
    assert q < p;
    if k > 0 {
      WithByteBound(q, k - 1, b, n - 1);
    }
  }

  lemma {:induction false} ByteWritten(w: nat, k: nat, b: byte, j: nat)
    ensures ByteOf(WithByte(w, k, b), j) == if j == k then b else ByteOf(w, j)
  {
    if k == 0 {
      assert (w / 256 * 256 + b as int) / 256 == w / 256 && (w / 256 * 256 + b as int) % 256 == b as int;
    } else {
      var rest := WithByte(w / 256, k - 1, b);
      assert (rest * 256 + w % 256) / 256 == rest && (rest * 256 + w % 256) % 256 == w % 256;
      if j > 0 { ByteWritten(w / 256, k - 1, b, j - 1); }
    }
  }

  lemma WordBound(w: u64, k: nat, b: byte)
    requires k < 8
    ensures WithByte(w, k, b) < 0x1_0000_0000_0000_0000
  {
    assert Pow(256, 8) == 0x1_0000_0000_0000_0000 by {
      assert Pow(256, 2) == 0x1_0000;
      assert Pow(256, 4) == 0x1_0000_0000;
      assert Pow(256, 6) == 0x1_0000_0000_0000;
    }
    WithByteBound(w, k, b, 8);
  }

  /** A physical address inside the page frames. */
  predicate InFrames(mem: seq<u64>, fb: nat, a: nat)
  {
    a >= fb && (a - fb) / 8 < |mem|
  }

  /** The byte at a physical address. */
  function PhysicalByte(mem: seq<u64>, fb: nat, a: nat): byte
  {
    if InFrames(mem, fb, a) then ByteOf(mem[(a - fb) / 8], (a - fb) % 8) else 0
  }

  function PutByte(mem: seq<u64>, fb: nat, a: nat, b: byte): (mem': seq<u64>)
    ensures |mem'| == |mem|
  {
    if InFrames(mem, fb, a) then
      WordBound(mem[(a - fb) / 8], (a - fb) % 8, b);
      mem[(a - fb) / 8 := WithByte(mem[(a - fb) / 8], (a - fb) % 8, b)]
    else mem
  }

  lemma BytePut(mem: seq<u64>, fb: nat, a: nat, b: byte, c: nat)
    requires InFrames(mem, fb, a)
    ensures PhysicalByte(PutByte(mem, fb, a, b), fb, c) == if c == a then b else PhysicalByte(mem, fb, c)
  {
    if InFrames(mem, fb, c) && (c - fb) / 8 == (a - fb) / 8 {
      ByteWritten(mem[(a - fb) / 8], (a - fb) % 8, b, (c - fb) % 8);
      assert (c - fb) % 8 == (a - fb) % 8 ==> c == a;
    }
  }

  /** Bytes lie in their word the lowest first. */
  lemma ByteAt(mem: seq<u64>, fb: nat, a: nat)
    requires InFrames(mem, fb, a)
    ensures PhysicalByte(mem, fb, a) as int == mem[(a - fb) / 8] as int / Pow(256, (a - fb) % 8) % 256
  {
    ByteIs(mem[(a - fb) / 8], (a - fb) % 8);
  }

  lemma {:induction false} ByteIs(w: nat, k: nat)
    ensures ByteOf(w, k) as int == w / Pow(256, k) % 256
  {
    if k > 0 {
      ByteIs(w / 256, k - 1);
      LowFirst(w, Pow(256, k - 1));
    }
  }

  lemma LowFirst(w: nat, m: nat)
    requires m > 0
    ensures w / (256 * m) == w / 256 / m
  {
    var q, r := w / 256 / m, w / 256 % m;
    assert w / 256 == q * m + r;
    assert w == (256 * m) * q + (256 * r + w % 256) by { assert 256 * (q * m) == (256 * m) * q; }
    QuotientIs(w, 256 * m, q, 256 * r + w % 256);
  }

  // ---- translation inside a page -------------------------------------------------------

  /** Translation is linear inside a page: this is what makes one memcpy per page right. */
  lemma OffsetLinear(mem: seq<u64>, fb: nat, root: nat, tables: Tables, u: u64, x: nat)
    requires Tree(mem, fb, root, tables) && u as int % PAGE_SIZE + x < PAGE_SIZE && u as int + x < 0x1_0000_0000_0000_0000
    ensures Translate(mem, fb, root, u) == NO_ADDRESS ==> Translate(mem, fb, root, u as int + x) == NO_ADDRESS
    ensures Translate(mem, fb, root, u) != NO_ADDRESS ==>
      Translate(mem, fb, root, u as int + x) as int == Translate(mem, fb, root, u) as int + x < 0x100_0000_0000_0000
  {
    hide Tree, PteAt, Translate, LeafAddress, IsLeaf, IsValid;
    TranslateIsLookup(mem, fb, root, tables, u);
    TranslateIsLookup(mem, fb, root, tables, u as int + x);
    SameDigits(u, x);
    LookupSame(mem, fb, root, u, u as int + x);
    var e := PteAt(mem, fb, root, u);
    LeafLinear(e, u);
    LeafLinear(e, u as int + x);
  }

  lemma SameDigits(u: u64, x: nat)
    requires u as int % PAGE_SIZE + x < PAGE_SIZE && u as int + x < 0x1_0000_0000_0000_0000
    ensures SamePage(u, u as int + x) && (u as int + x) % PAGE_SIZE == u as int % PAGE_SIZE + x
  {
    hide SamePage;
    assert (u as int + x) / 0x1000 == u as int / 0x1000;
    SamePageIs(u, u as int + x);
  }

  lemma LookupSame(mem: seq<u64>, fb: nat, root: nat, u: u64, v: u64)
    requires SamePage(u, v)
    ensures PteAt(mem, fb, root, u) == PteAt(mem, fb, root, v)
  {
    hide Vpn, IsValid;
  }

  function LeafPage(e: u64): (p: nat)
    ensures p + PAGE_SIZE <= 0x100_0000_0000_0000
  {
    e as int / 0x1000_0000 % 0x400_0000 * 0x4000_0000 + e as int / 0x8_0000 % 512 * 0x20_0000 + e as int / 0x400 % 512 * 0x1000
  }

  lemma LeafLinear(e: u64, v: u64)
    ensures LeafAddress(e, v, 0) as int == LeafPage(e) + v as int % PAGE_SIZE
  {
  }

  // ---- the copies -----------------------------------------------------------------------

  /** What the page table maps in the user's range is inside the page frames. */
  ghost predicate MapsFrames(mem: seq<u64>, fb: nat, root: nat, user: nat, size: nat)
  {
    forall v: u64 :: user <= v as int < user + size && Translate(mem, fb, root, v) != NO_ADDRESS ==>
      InFrames(mem, fb, Translate(mem, fb, root, v) as int)
  }

  /** Nothing the page table maps there lies in one of its tables. */
  ghost predicate TablesUnmapped(mem: seq<u64>, fb: nat, root: nat, tables: Tables, user: nat, size: nat)
  {
    forall v: u64 :: user <= v as int < user + size && Translate(mem, fb, root, v) != NO_ADDRESS
                     && Translate(mem, fb, root, v) as int >= fb ==>
      (Translate(mem, fb, root, v) as int - fb) / 8 / PAGE_WORDS !in tables
  }

  /** No two addresses of the user's range have the same physical byte. */
  ghost predicate Unshared(mem: seq<u64>, fb: nat, root: nat, user: nat, size: nat)
    requires user + size <= 0x1_0000_0000_0000_0000
  {
    forall u: u64, v: u64 :: user <= u as int < v as int < user + size && Translate(mem, fb, root, u) != NO_ADDRESS ==>
      Translate(mem, fb, root, u) != Translate(mem, fb, root, v)
  }

  /** The first n bytes at os[at..] are those behind user. */
  ghost predicate Fetched(os: seq<byte>, at: nat, mem: seq<u64>, fb: nat, root: nat, user: nat, n: nat)
    requires at + n <= |os| && user + n <= 0x1_0000_0000_0000_0000
  {
    forall u: u64 :: user <= u as int < user + n ==>
      Translate(mem, fb, root, u) != NO_ADDRESS
      && os[at + (u as int - user)] == PhysicalByte(mem, fb, Translate(mem, fb, root, u) as int)
  }

  /**
   * copy_to_os: `done` bytes arrive in order; it is all of them exactly when 0 is returned, and otherwise the next
   * one has no translation.
   */
  method CopyToOs(ram: Ram, pt: nat, os: array<byte>, at: nat, user: nat, size: nat, ghost root: nat, ghost tables: Tables)
    returns (code: int, ghost done: nat)
    requires Mapped(ram, root, tables) && pt == ram.Frame(root) && MapsFrames(ram.Memory(), ram.FrameBase(), root, user, size)
    requires at + size <= os.Length && user + size < 0x1_0000_0000_0000_0000 && size < 0x1_0000_0000 && os != ram.book
    modifies os
    ensures (code == 0 && done == size) || (code == 1 && done < size)
    ensures done < size ==> Translate(ram.Memory(), ram.FrameBase(), root, user + done) == NO_ADDRESS
    ensures Fetched(os[..], at, ram.Memory(), ram.FrameBase(), root, user, done)
    ensures forall k :: 0 <= k < os.Length && !(at <= k < at + done) ==> os[k] == old(os[k])
  {
    hide Tree, Held, WellFormed, RunsOf, Translate, PhysicalByte, InFrames, Fetched, Linear, MapsFrames;
    ghost var mem, fb := ram.Memory(), ram.FrameBase();
    MappedTree(ram, root, tables);
    var left, walking, walkingOs := size, user, at;
    done := 0;
    FetchedNone(os[..], at, mem, fb, root, user);
    while left > 0
      invariant done + left == size && walking == user + done && walkingOs == at + done
      invariant Fetched(os[..], at, mem, fb, root, user, done)
      invariant forall k :: 0 <= k < os.Length && !(at <= k < at + done) ==> os[k] == old(os[k])
    {
      var physical := MmuTranslate(ram, pt, walking, root, tables);
      if physical == NO_ADDRESS {
        return 1, done;
      }
      var copySize := Min(PAGE_SIZE - walking % PAGE_SIZE, left);
      PageLinear(mem, fb, root, tables, walking, copySize, physical);
      LinearInFrames(mem, fb, root, walking, copySize, physical, user, size);
      ghost var os1 := os[..];
      FromFrames(ram, physical as int, copySize, os, walkingOs);
      FetchedNext(os1, os[..], at, mem, fb, root, user, done, copySize, physical);
      walkingOs := walkingOs + copySize;
      walking := walking + copySize;
      left := left - copySize;
      done := done + copySize;
    }
    code := 0;
  }

  /** n addresses from u on translate to n bytes from `physical` on. */
  ghost predicate Linear(mem: seq<u64>, fb: nat, root: nat, u: u64, n: nat, physical: u64)
  {
    && physical as int + n <= NO_ADDRESS as int
    && forall v: u64 :: u as int <= v as int < u as int + n ==>
         Translate(mem, fb, root, v) as int == physical as int + (v as int - u as int)
  }

  lemma PageLinear(mem: seq<u64>, fb: nat, root: nat, tables: Tables, u: u64, n: nat, physical: u64)
    requires Tree(mem, fb, root, tables) && n <= PAGE_SIZE - u as int % PAGE_SIZE && u as int + n < 0x1_0000_0000_0000_0000
    requires physical == Translate(mem, fb, root, u) != NO_ADDRESS
    ensures Linear(mem, fb, root, u, n, physical)
  {
    hide Tree, Translate;
    OffsetLinear(mem, fb, root, tables, u, 0);
    forall v: u64 | u as int <= v as int < u as int + n
      ensures Translate(mem, fb, root, v) as int == physical as int + (v as int - u as int)
    {
      OffsetLinear(mem, fb, root, tables, u, v as int - u as int);
    }
  }

  lemma LinearInFrames(mem: seq<u64>, fb: nat, root: nat, u: u64, n: nat, physical: u64, user: nat, size: nat)
    requires MapsFrames(mem, fb, root, user, size) && Linear(mem, fb, root, u, n, physical)
    requires user <= u as int && u as int + n <= user + size < 0x1_0000_0000_0000_0000
    ensures forall a: nat :: physical as int <= a < physical as int + n ==> InFrames(mem, fb, a)
  {
    hide Translate;
    forall a: nat | physical as int <= a < physical as int + n ensures InFrames(mem, fb, a) {
      var v: u64 := u as int + (a - physical as int);
      assert Translate(mem, fb, root, v) as int == a;
    }
  }

  lemma FetchedNone(os: seq<byte>, at: nat, mem: seq<u64>, fb: nat, root: nat, user: nat)
    requires at <= |os| && user <= 0x1_0000_0000_0000_0000
    ensures Fetched(os, at, mem, fb, root, user, 0)
  {
  }

  lemma FetchedNext(os: seq<byte>, os': seq<byte>, at: nat, mem: seq<u64>, fb: nat, root: nat, user: nat, done: nat, n: nat, physical: u64)
    requires at + done + n <= |os| == |os'| && user + done + n < 0x1_0000_0000_0000_0000
    requires Fetched(os, at, mem, fb, root, user, done) && Linear(mem, fb, root, user + done, n, physical)
    requires forall k :: 0 <= k < |os| ==>
      os'[k] == if at + done <= k < at + done + n then PhysicalByte(mem, fb, physical as int + (k - (at + done))) else os[k]
    ensures Fetched(os', at, mem, fb, root, user, done + n)
  {
    hide Translate, PhysicalByte;
  }

  /** memcpy out of the page frames. */
  method FromFrames(ram: Ram, physical: nat, n: nat, os: array<byte>, at: nat)
    requires ram.Valid() && at + n <= os.Length
    requires forall a: nat :: physical <= a < physical + n ==> InFrames(ram.Memory(), ram.FrameBase(), a)
    modifies os
    ensures forall k :: 0 <= k < os.Length ==>
      os[k] == if at <= k < at + n then PhysicalByte(ram.Memory(), ram.FrameBase(), physical + (k - at)) else old(os[k])
  {
    hide ByteOf;
    var x := 0;
    while x < n
      invariant 0 <= x <= n
      invariant forall k :: 0 <= k < os.Length ==>
        os[k] == if at <= k < at + x then PhysicalByte(ram.Memory(), ram.FrameBase(), physical + (k - at)) else old(os[k])
    {
      var a := physical + x;
      assert InFrames(ram.Memory(), ram.FrameBase(), a);
      os[at + x] := ByteOf(ram.words[(a - ram.FrameBase()) / 8], (a - ram.FrameBase()) % 8);
      x := x + 1;
    }
  }

  /** The n bytes behind user, as they were mapped before, now hold os[at..]. */
  ghost predicate Delivered(os: seq<byte>, at: nat, mem0: seq<u64>, mem: seq<u64>, fb: nat, root: nat, user: nat, n: nat)
    requires at + n <= |os| && user + n <= 0x1_0000_0000_0000_0000
  {
    forall u: u64 :: user <= u as int < user + n ==>
      Translate(mem0, fb, root, u) != NO_ADDRESS
      && PhysicalByte(mem, fb, Translate(mem0, fb, root, u) as int) == os[at + (u as int - user)]
  }

  /** A physical byte none of the user's first n addresses has. */
  ghost predicate NotBehind(mem: seq<u64>, fb: nat, root: nat, user: nat, n: nat, a: nat)
    requires user + n <= 0x1_0000_0000_0000_0000
  {
    forall u: u64 :: user <= u as int < user + n ==> Translate(mem, fb, root, u) as int != a
  }

  /** Only bytes behind the user's first n addresses differ. */
  ghost predicate OthersKept(mem0: seq<u64>, mem: seq<u64>, fb: nat, root: nat, user: nat, n: nat)
    requires user + n <= 0x1_0000_0000_0000_0000
  {
    forall a: nat :: NotBehind(mem0, fb, root, user, n, a) ==> PhysicalByte(mem, fb, a) == PhysicalByte(mem0, fb, a)
  }

  /** n physical bytes from a hold os[at..], all others are as they were. */
  ghost predicate Stored(os: seq<byte>, at: nat, mem0: seq<u64>, mem: seq<u64>, fb: nat, physical: nat, n: nat)
    requires at + n <= |os|
  {
    forall a: nat :: PhysicalByte(mem, fb, a)
                     == if physical <= a < physical + n then os[at + (a - physical)] else PhysicalByte(mem0, fb, a)
  }

  /** n bytes from a on lie in the page frames and in no table. */
  ghost predicate ClearOfTables(mem: seq<u64>, fb: nat, tables: Tables, physical: nat, n: nat)
  {
    forall a: nat :: physical <= a < physical + n ==> InFrames(mem, fb, a) && (a - fb) / 8 / PAGE_WORDS !in tables
  }

  /** memcpy into the page frames. */
  method ToFrames(ram: Ram, physical: nat, n: nat, os: array<byte>, at: nat, ghost root: nat, ghost tables: Tables)
    requires Mapped(ram, root, tables) && at + n <= os.Length
    requires ClearOfTables(ram.Memory(), ram.FrameBase(), tables, physical, n)
    modifies ram.words
    ensures Mapped(ram, root, tables)
    ensures Stored(os[..], at, old(ram.Memory()), ram.Memory(), ram.FrameBase(), physical, n)
    ensures forall v :: Translate(ram.Memory(), ram.FrameBase(), root, v) == old(Translate(ram.Memory(), ram.FrameBase(), root, v))
  {
    hide Tree, Held, WellFormed, RunsOf, Translate, PhysicalByte, PutByte, Stored, InFrames, ByteOf, WithByte;
    ghost var mem0, fb := ram.Memory(), ram.FrameBase();
    StoredNone(os[..], at, mem0, fb, physical);
    var x := 0;
    while x < n
      invariant 0 <= x <= n && Mapped(ram, root, tables)
      invariant Stored(os[..], at, mem0, ram.Memory(), fb, physical, x)
      invariant |ram.Memory()| == |mem0|
      invariant forall v :: Translate(ram.Memory(), fb, root, v) == Translate(mem0, fb, root, v)
    {
      ghost var mem := ram.Memory();
      var a := physical + x;
      FramesSame(mem0, mem, fb, a);
      var k := StoreByte(ram, a, os[at + x]);
      StoredNext(os[..], at, mem0, mem, fb, physical, x);
      BytePutForeign(mem, fb, root, tables, a, os[at + x]);
      x := x + 1;
    }
  }

  lemma FramesSame(mem0: seq<u64>, mem: seq<u64>, fb: nat, a: nat)
    requires |mem| == |mem0|
    ensures InFrames(mem, fb, a) == InFrames(mem0, fb, a)
  {
  }

  method StoreByte(ram: Ram, a: nat, b: byte) returns (k: nat)
    requires ram.Valid() && InFrames(ram.Memory(), ram.FrameBase(), a)
    modifies ram.words
    ensures ram.Memory() == PutByte(old(ram.Memory()), ram.FrameBase(), a, b)
  {
    hide WithByte;
    k := (a - ram.FrameBase()) / 8;
    WordBound(ram.words[k], (a - ram.FrameBase()) % 8, b);
    ram.words[k] := WithByte(ram.words[k], (a - ram.FrameBase()) % 8, b);
  }

  lemma StoredNone(os: seq<byte>, at: nat, mem: seq<u64>, fb: nat, physical: nat)
    requires at <= |os|
    ensures Stored(os, at, mem, mem, fb, physical, 0)
  {
  }

  lemma StoredNext(os: seq<byte>, at: nat, mem0: seq<u64>, mem: seq<u64>, fb: nat, physical: nat, x: nat)
    requires at + x < |os| && Stored(os, at, mem0, mem, fb, physical, x)
    requires InFrames(mem, fb, physical + x)
    ensures Stored(os, at, mem0, PutByte(mem, fb, physical + x, os[at + x]), fb, physical, x + 1)
  {
    hide PhysicalByte, PutByte, InFrames;
    var mem' := PutByte(mem, fb, physical + x, os[at + x]);
    forall a: nat
      ensures PhysicalByte(mem', fb, a)
           == if physical <= a < physical + (x + 1) then os[at + (a - physical)] else PhysicalByte(mem0, fb, a)
    {
      BytePut(mem, fb, physical + x, os[at + x], a);
    }
  }

  /** A byte stored outside the tables changes no translation. */
  lemma BytePutForeign(mem: seq<u64>, fb: nat, root: nat, tables: Tables, a: nat, b: byte)
    requires Tree(mem, fb, root, tables) && InFrames(mem, fb, a) && (a - fb) / 8 / PAGE_WORDS !in tables
    ensures Tree(PutByte(mem, fb, a, b), fb, root, tables)
    ensures forall v :: Translate(PutByte(mem, fb, a, b), fb, root, v) == Translate(mem, fb, root, v)
  {
    hide Tree, Translate, WithByte;
    var mem' := PutByte(mem, fb, a, b);
    forall p, i | p in tables && 0 <= i < ENTRIES ensures Entry(mem', p, i) == Entry(mem, p, i) {
      EntryInPage(p, i);
    }
    ForeignTranslate(mem, mem', fb, root, tables);
  }

  /**
   * copy_to_user: `done` bytes arrive behind the user's addresses and no other byte changes; it is all of them exactly
   * when 0 is returned, and otherwise the next one has no translation.
   */
  method CopyToUser(ram: Ram, pt: nat, os: array<byte>, at: nat, user: nat, size: nat, ghost root: nat, ghost tables: Tables)
    returns (code: int, ghost done: nat)
    requires Mapped(ram, root, tables) && pt == ram.Frame(root)
    requires MapsFrames(ram.Memory(), ram.FrameBase(), root, user, size)
    requires TablesUnmapped(ram.Memory(), ram.FrameBase(), root, tables, user, size)
    requires at + size <= os.Length && user + size < 0x1_0000_0000_0000_0000 && size < 0x1_0000_0000
    requires Unshared(ram.Memory(), ram.FrameBase(), root, user, size)
    modifies ram.words
    ensures Mapped(ram, root, tables)
    ensures (code == 0 && done == size) || (code == 1 && done < size)
    ensures done < size ==> old(Translate(ram.Memory(), ram.FrameBase(), root, user + done)) == NO_ADDRESS
    ensures Delivered(os[..], at, old(ram.Memory()), ram.Memory(), ram.FrameBase(), root, user, done)
    ensures OthersKept(old(ram.Memory()), ram.Memory(), ram.FrameBase(), root, user, done)
    // bytes behind none of the user's addresses are as they were
    ensures forall a: nat :: PhysicalByte(ram.Memory(), ram.FrameBase(), a) == old(PhysicalByte(ram.Memory(), ram.FrameBase(), a))
              || exists u: u64 :: user <= u as int < user + done && old(Translate(ram.Memory(), ram.FrameBase(), root, u)) as int == a
    ensures forall v :: Translate(ram.Memory(), ram.FrameBase(), root, v) == old(Translate(ram.Memory(), ram.FrameBase(), root, v))
  {
    hide Tree, Held, WellFormed, RunsOf, Translate, PhysicalByte, InFrames, Stored, Delivered, OthersKept, Unshared, MapsFrames,
      TablesUnmapped, Linear, ClearOfTables;
    ghost var mem0, fb := ram.Memory(), ram.FrameBase();
    DeliveredNone(os[..], at, mem0, fb, root, user);
    var left, walking, walkingOs := size, user, at;
    done := 0;
    while left > 0
      invariant done + left == size && walking == user + done && walkingOs == at + done
      invariant Mapped(ram, root, tables)
      invariant Delivered(os[..], at, mem0, ram.Memory(), fb, root, user, done)
      invariant OthersKept(mem0, ram.Memory(), fb, root, user, done)
      invariant forall v :: Translate(ram.Memory(), fb, root, v) == Translate(mem0, fb, root, v)
    {
      ghost var mem := ram.Memory();
      var physical := MmuTranslate(ram, pt, walking, root, tables);
      if physical == NO_ADDRESS {
        KeptOrBehind(mem0, mem, fb, root, user, done);
        return 1, done;
      }
      var copySize := Min(PAGE_SIZE - walking % PAGE_SIZE, left);
      MappedTree(ram, root, tables);
      PageBehind(mem0, mem, fb, root, tables, walking, copySize, physical, user, size);
      ToFrames(ram, physical as int, copySize, os, walkingOs, root, tables);
      DeliveredNext(os[..], at, mem0, mem, ram.Memory(), fb, root, user, done, copySize, physical, size);
      walkingOs := walkingOs + copySize;
      walking := walking + copySize;
      left := left - copySize;
      done := done + copySize;
    }
    KeptOrBehind(mem0, ram.Memory(), fb, root, user, done);
    code := 0;
  }

  lemma KeptOrBehind(mem0: seq<u64>, mem: seq<u64>, fb: nat, root: nat, user: nat, n: nat)
    requires user + n <= 0x1_0000_0000_0000_0000 && OthersKept(mem0, mem, fb, root, user, n)
    ensures forall a: nat :: PhysicalByte(mem, fb, a) == PhysicalByte(mem0, fb, a)
              || exists u: u64 :: user <= u as int < user + n && Translate(mem0, fb, root, u) as int == a
  {
    hide Translate, PhysicalByte;
    forall a: nat | NotBehind(mem0, fb, root, user, n, a) ensures PhysicalByte(mem, fb, a) == PhysicalByte(mem0, fb, a) {
    }
  }

  lemma DeliveredNone(os: seq<byte>, at: nat, mem: seq<u64>, fb: nat, root: nat, user: nat)
    requires at <= |os| && user <= 0x1_0000_0000_0000_0000
    ensures Delivered(os, at, mem, mem, fb, root, user, 0) && OthersKept(mem, mem, fb, root, user, 0)
  {
  }

  /** The rest of a page lies behind one translation, in the frames and outside the tables. */
  lemma PageBehind(mem0: seq<u64>, mem: seq<u64>, fb: nat, root: nat, tables: Tables, u: u64, n: nat, physical: u64,
                   user: nat, size: nat)
    requires Tree(mem, fb, root, tables) && MapsFrames(mem0, fb, root, user, size)
    requires TablesUnmapped(mem0, fb, root, tables, user, size)
    requires user <= u as int && u as int + n <= user + size
    requires |mem| == |mem0| && forall v :: Translate(mem, fb, root, v) == Translate(mem0, fb, root, v)
    requires n <= PAGE_SIZE - u as int % PAGE_SIZE && u as int + n < 0x1_0000_0000_0000_0000
    requires physical == Translate(mem, fb, root, u) != NO_ADDRESS
    ensures Linear(mem0, fb, root, u, n, physical) && ClearOfTables(mem, fb, tables, physical as int, n)
  {
    hide Tree, Translate;
    PageLinear(mem, fb, root, tables, u, n, physical);
    forall a: nat | physical as int <= a < physical as int + n
      ensures InFrames(mem, fb, a) && (a - fb) / 8 / PAGE_WORDS !in tables
    {
      var v: u64 := u as int + (a - physical as int);
      assert Translate(mem0, fb, root, v) as int == a;
    }
  }

  lemma DeliveredNext(os: seq<byte>, at: nat, mem0: seq<u64>, mem: seq<u64>, mem': seq<u64>, fb: nat, root: nat, user: nat,
                      done: nat, n: nat, physical: u64, size: nat)
    requires at + size <= |os| && done + n <= size && user + size < 0x1_0000_0000_0000_0000
    requires Delivered(os, at, mem0, mem, fb, root, user, done) && OthersKept(mem0, mem, fb, root, user, done)
    requires Unshared(mem0, fb, root, user, size) && Linear(mem0, fb, root, user + done, n, physical)
    requires Stored(os, at + done, mem, mem', fb, physical as int, n)
    ensures Delivered(os, at, mem0, mem', fb, root, user, done + n) && OthersKept(mem0, mem', fb, root, user, done + n)
  {
    hide Translate, PhysicalByte;
    forall u: u64 | user <= u as int < user + done + n
      ensures Translate(mem0, fb, root, u) != NO_ADDRESS
           && PhysicalByte(mem', fb, Translate(mem0, fb, root, u) as int) == os[at + (u as int - user)]
    {
      if u as int < user + done {
        NotAmong(mem0, fb, root, user, size, done, n, physical, u);
      }
    }
    forall a: nat | NotBehind(mem0, fb, root, user, done + n, a) ensures PhysicalByte(mem', fb, a) == PhysicalByte(mem0, fb, a) {
      assert NotBehind(mem0, fb, root, user, done, a);
      LinearOnto(mem0, fb, root, user + done, n, physical, a);
    }
  }

  /** Every byte of the page is behind one of the addresses. */
  lemma LinearOnto(mem: seq<u64>, fb: nat, root: nat, u: u64, n: nat, physical: u64, a: int)
    requires Linear(mem, fb, root, u, n, physical) && u as int + n < 0x1_0000_0000_0000_0000
    ensures physical as int <= a < physical as int + n ==>
      exists v: u64 :: u as int <= v as int < u as int + n && Translate(mem, fb, root, v) as int == a
  {
    hide Translate;
    if physical as int <= a < physical as int + n {
      var v: u64 := u as int + (a - physical as int);
      assert Translate(mem, fb, root, v) as int == a;
    }
  }

  lemma NotAmong(mem0: seq<u64>, fb: nat, root: nat, user: nat, size: nat, done: nat, n: nat, physical: u64, u: u64)
    requires done + n <= size && user + size < 0x1_0000_0000_0000_0000 && user <= u as int < user + done
    requires Unshared(mem0, fb, root, user, size) && Translate(mem0, fb, root, u) != NO_ADDRESS
    requires Linear(mem0, fb, root, user + done, n, physical)
    ensures !(physical as int <= Translate(mem0, fb, root, u) as int < physical as int + n)
  {
    hide Translate;
    var a := Translate(mem0, fb, root, u) as int;
    LinearOnto(mem0, fb, root, user + done, n, physical, a);
  }
}
