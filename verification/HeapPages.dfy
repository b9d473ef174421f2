/**
 * The kernel heap's memory (kmalloc.c:11, 163-186, 280-296): virtual pages from KERNEL_HEAP_START_VADDR up to
 * kernel_heap_vaddr, each backed by a physical page of its own through the kernel page table.
 */
module HeapPages {
  import opened Mmu
  import opened Page

  const HEAP_BASE: nat := 0x1_2000_0000   // KERNEL_HEAP_START_VADDR

  /** Where the heap byte at offset x lies. */
  function FrameAddress(fb: nat, frames: seq<nat>, x: nat): int
  {
    if x / PAGE_SIZE < |frames| then fb + frames[x / PAGE_SIZE] * PAGE_SIZE + x % PAGE_SIZE else NO_ADDRESS as int
  }

  /** Every heap address translates into its page's frame, and no address between the end of the heap and 2^39 does. */
  ghost predicate Translated(mem: seq<u64>, fb: nat, root: nat, frames: seq<nat>)
  {
    forall u: u64 :: HEAP_BASE <= u as int < VIRTUAL_LIMIT ==>
      Translate(mem, fb, root, u) as int == FrameAddress(fb, frames, u as int - HEAP_BASE)
  }

  /** The frames are distinct and none of them is a page table. */
  ghost predicate Apart(frames: seq<nat>, tables: Tables)
  {
    && (forall k :: 0 <= k < |frames| ==> frames[k] !in tables)
    && (forall j, k :: 0 <= j < k < |frames| ==> frames[j] != frames[k])
  }

  /** The frames are taken, and a physical run never leaves the heap nor changes order in it. */
  ghost predicate Chunked(frames: seq<nat>, r: Runs, usable: nat)
  {
    forall k :: 0 <= k < |frames| ==> InChunk(frames, r, usable, k)
  }

  ghost predicate InChunk(frames: seq<nat>, r: Runs, usable: nat, k: nat)
    requires k < |frames|
  {
    && 1 <= frames[k] < usable && frames[k] in r.taken
    && (frames[k] !in r.last ==> k + 1 < |frames| && frames[k + 1] == frames[k] + 1)
    && (frames[k] - 1 in r.taken && frames[k] - 1 !in r.last ==> k > 0 && frames[k - 1] == frames[k] - 1)
  }

  lemma FramesTaken(frames: seq<nat>, r: Runs, usable: nat)
    requires Chunked(frames, r, usable)
    ensures forall k :: 0 <= k < |frames| ==> 1 <= frames[k] < usable && frames[k] in r.taken
  {
    forall k | 0 <= k < |frames| ensures 1 <= frames[k] < usable && frames[k] in r.taken {
      assert InChunk(frames, r, usable, k);
    }
  }

  ghost predicate InMemory(mem: seq<u64>, frames: seq<nat>)
  {
    forall k :: 0 <= k < |frames| ==> (frames[k] + 1) * PAGE_WORDS <= |mem|
  }

  /** The heap's words in virtual order. */
  ghost function View(mem: seq<u64>, frames: seq<nat>): (w: seq<u64>)
    ensures |w| == |frames| * PAGE_WORDS
  {
    seq(|frames| * PAGE_WORDS, i requires 0 <= i < |frames| * PAGE_WORDS => Entry(mem, frames[i / PAGE_WORDS], i % PAGE_WORDS))
  }

  // ---- words by virtual address ------------------------------------------------------

  ghost predicate InHeap(w: seq<u64>, a: nat)
  {
    a >= HEAP_BASE && (a - HEAP_BASE) % 8 == 0 && (a - HEAP_BASE) / 8 < |w|
  }

  ghost function At(w: seq<u64>, a: nat): u64
  {
    if InHeap(w, a) then w[(a - HEAP_BASE) / 8] else 0
  }

  ghost function Put(w: seq<u64>, a: nat, x: u64): (w': seq<u64>)
    ensures |w'| == |w|
  {
    if InHeap(w, a) then w[(a - HEAP_BASE) / 8 := x] else w
  }

  lemma AtPut(w: seq<u64>, a: nat, x: u64, b: nat)
    requires InHeap(w, a)
    ensures At(Put(w, a, x), b) == if b == a then x else At(w, b)
  {
  }

  lemma InHeapIff(w: seq<u64>, n: nat, a: nat)
    requires |w| == n * PAGE_WORDS
    ensures InHeap(w, a) <==> HEAP_BASE <= a < HEAP_BASE + n * PAGE_SIZE && a % 8 == 0
  {
    if a >= HEAP_BASE {
      assert (a - HEAP_BASE) % 8 == a % 8;
      if a % 8 == 0 {
        assert (a - HEAP_BASE) == 8 * ((a - HEAP_BASE) / 8);
      }
    }
  }

  // ---- one word ---------------------------------------------------------------------------

  /** The physical word behind a heap address. */
  lemma WordBehind(fb: nat, frames: seq<nat>, x: nat)
    requires x % 8 == 0 && x / 8 < |frames| * PAGE_WORDS
    ensures x / PAGE_SIZE == x / 8 / PAGE_WORDS < |frames|
    ensures FrameAddress(fb, frames, x) == fb + frames[x / 8 / PAGE_WORDS] * PAGE_SIZE + 8 * (x / 8 % PAGE_WORDS)
    ensures (FrameAddress(fb, frames, x) - fb) / 8 == frames[x / 8 / PAGE_WORDS] * PAGE_WORDS + x / 8 % PAGE_WORDS
  {
    var i := x / 8;
    assert x == 8 * i;
    OffsetOf(i);
  }

  lemma OffsetOf(i: nat)
    ensures 8 * i / PAGE_SIZE == i / PAGE_WORDS && 8 * i % PAGE_SIZE == 8 * (i % PAGE_WORDS)
  {
    var k, j := i / PAGE_WORDS, i % PAGE_WORDS;
    assert i == k * PAGE_WORDS + j;
    assert 8 * i == k * PAGE_SIZE + 8 * j;
  }

  /** A word written in a heap frame is written in the view, and nowhere else in it. */
  lemma ViewWritten(mem: seq<u64>, frames: seq<nat>, tables: Tables, k: nat, j: nat, x: u64)
    requires Apart(frames, tables) && InMemory(mem, frames) && k < |frames| && j < PAGE_WORDS
    requires frames[k] * PAGE_WORDS + j < |mem|
    ensures k * PAGE_WORDS + j < |View(mem, frames)|
    ensures View(WithEntry(mem, frames[k], j, x), frames) == View(mem, frames)[k * PAGE_WORDS + j := x]
  {
    hide Entry, WithEntry;
    var mem' := WithEntry(mem, frames[k], j, x);
    forall i | 0 <= i < |frames| * PAGE_WORDS
      ensures View(mem', frames)[i] == if i == k * PAGE_WORDS + j then x else View(mem, frames)[i]
    {
      EntryAfter(mem, frames[k], j, x, frames[i / PAGE_WORDS], i % PAGE_WORDS);
      assert i == i / PAGE_WORDS * PAGE_WORDS + i % PAGE_WORDS;
    }
  }

  /** Writing outside the tables changes neither the tree nor any translation. */
  lemma ForeignTranslate(mem: seq<u64>, mem': seq<u64>, fb: nat, root: nat, tables: Tables)
    requires Tree(mem, fb, root, tables) && |mem'| == |mem|
    requires forall p, i :: p in tables && 0 <= i < ENTRIES ==> Entry(mem', p, i) == Entry(mem, p, i)
    ensures Tree(mem', fb, root, tables)
    ensures forall v :: Translate(mem', fb, root, v) == Translate(mem, fb, root, v)
  {
    hide Tree, Translate, Entry, PteAt, LeafAddress;
    ForeignWrite(mem, mem', fb, root, tables);
    forall v: u64 ensures Translate(mem', fb, root, v) == Translate(mem, fb, root, v) {
      TranslateIsLookup(mem, fb, root, tables, v);
      TranslateIsLookup(mem', fb, root, tables, v);
    }
  }

  /** What a write to a heap frame keeps. */
  lemma HeapWritten(mem: seq<u64>, fb: nat, root: nat, tables: Tables, frames: seq<nat>, p: nat, j: nat, x: u64)
    requires Tree(mem, fb, root, tables) && p !in tables && j < PAGE_WORDS && p * PAGE_WORDS + j < |mem|
    ensures Tree(WithEntry(mem, p, j, x), fb, root, tables)
    ensures Translated(mem, fb, root, frames) ==> Translated(WithEntry(mem, p, j, x), fb, root, frames)
  {
    hide Tree, Translate, Entry, WithEntry;
    forall q, i | q in tables && 0 <= i < ENTRIES
      ensures Entry(WithEntry(mem, p, j, x), q, i) == Entry(mem, q, i)
    {
      EntryAfter(mem, p, j, x, q, i);
    }
    assert |WithEntry(mem, p, j, x)| == |mem| by { WithEntrySize(mem, p, j, x); }
    ForeignTranslate(mem, WithEntry(mem, p, j, x), fb, root, tables);
  }

  lemma WithEntrySize(mem: seq<u64>, p: nat, j: nat, x: u64)
    requires p * PAGE_WORDS + j < |mem|
    ensures |WithEntry(mem, p, j, x)| == |mem|
  {
  }

  lemma FrameInMemory(mem: seq<u64>, frames: seq<nat>, r: Runs, usable: nat)
    requires Chunked(frames, r, usable) && |mem| == usable * PAGE_WORDS
    ensures InMemory(mem, frames)
  {
    FramesTaken(frames, r, usable);
  }

  class KernelMemory {
    const ram: Ram
    const pt: nat           // kernel_mmu_table
    var brk: nat            // kernel_heap_vaddr
    ghost var root: nat
    ghost var tables: Tables
    ghost var frames: seq<nat>

    /** Before init_kernel_heap nothing is mapped from the heap's start on. */
    constructor (ram: Ram, pt: nat, ghost root: nat, ghost tables: Tables)
      requires Mapped(ram, root, tables) && pt == ram.Frame(root)
      requires Translated(ram.Memory(), ram.FrameBase(), root, [])
      ensures Ready() && this.ram == ram && this.tables == tables && brk == HEAP_BASE && frames == []
    {
      this.ram, this.pt, this.root, this.tables := ram, pt, root, tables;
      brk, frames := HEAP_BASE, [];
    }

    ghost predicate Ready()
      reads this, ram.words, ram.book
    {
      && Mapped(ram, root, tables) && pt == ram.Frame(root)
      && brk == HEAP_BASE + |frames| * PAGE_SIZE <= VIRTUAL_LIMIT
      && Backed(ram.Memory(), ram.State(), ram.Usable(), ram.FrameBase(), root, tables, frames)
    }

    ghost function Words(): (w: seq<u64>)
      reads this, ram.words
      ensures |w| == |frames| * PAGE_WORDS
    {
      View(ram.Memory(), frames)
    }

    /** A load from a heap address. */
    method Load(a: nat) returns (x: u64)
      requires Ready() && InHeap(Words(), a)
      ensures x == At(Words(), a)
    {
      hide Tree, Held, Chunked, Apart, Translated, Translate, WellFormed, RunsOf, Entry;
      InHeapIff(Words(), |frames|, a);
      var physical := MmuTranslate(ram, pt, a, root, tables);
      ghost var mem, fb := ram.Memory(), ram.FrameBase();
      BackedParts(mem, ram.State(), ram.Usable(), fb, root, tables, frames, a);
      WordBehind(fb, frames, a - HEAP_BASE);
      x := ram.words[(physical - ram.FrameBase()) / 8];
      EntryOfPage(mem, frames[(a - HEAP_BASE) / 8 / PAGE_WORDS], (a - HEAP_BASE) / 8 % PAGE_WORDS);
    }

    /** A store to a heap address writes that word of the heap and no other word of the memory. */
    method Store(a: nat, x: u64)
      requires Ready() && InHeap(Words(), a)
      modifies ram.words
      ensures Ready() && Words() == Put(old(Words()), a, x)
      ensures FramesOnly(old(ram.Memory()), ram.Memory(), frames)
    {
      hide Tree, Held, Chunked, Apart, Translated, Translate, WellFormed, RunsOf, Entry, View;
      InHeapIff(Words(), |frames|, a);
      var physical := MmuTranslate(ram, pt, a, root, tables);
      ghost var mem, fb := ram.Memory(), ram.FrameBase();
      BackedParts(mem, ram.State(), ram.Usable(), fb, root, tables, frames, a);
      ghost var i := (a - HEAP_BASE) / 8;
      WordBehind(fb, frames, a - HEAP_BASE);
      ghost var p := frames[i / PAGE_WORDS];
      ram.words[(physical - ram.FrameBase()) / 8] := x;
      assert ram.Memory() == WithEntry(mem, p, i % PAGE_WORDS, x);
      ViewWritten(mem, frames, tables, i / PAGE_WORDS, i % PAGE_WORDS, x);
      HeapWritten(mem, fb, root, tables, frames, p, i % PAGE_WORDS, x);
      EntryInPage(p, i % PAGE_WORDS);
    }

    /**
     * When there is a run to grow into, it lies inside the usable frames and leaves enough pages for the page tables
     * the mapping lacks; when there is none, nothing is asked.
     */
    ghost predicate RoomToGrow(pages: nat)
      requires pages >= 1 && Ready() && brk + pages * PAGE_SIZE <= VIRTUAL_LIMIT
      reads this, ram.words, ram.book
    {
      forall k: nat :: LowestRun(ram.State(), ram.total, pages, k) ==>
        && k + pages <= ram.Usable()
        && |FreePages(Allocate(ram.State(), k, pages), ram.total)| >= Missing(PathsFor(brk, pages), PathsOf(tables))
    }

    /**
     * Get pages for the end of the heap: a zeroed physical run mapped behind the last page, or nothing when the page
     * allocator has no such run.
     */
    method Grow(pages: nat) returns (got: bool, ghost i: nat)
      requires Ready() && pages >= 1 && brk + pages * PAGE_SIZE <= VIRTUAL_LIMIT && RoomToGrow(pages)
      modifies this, ram.words, ram.book
      ensures Ready()
      ensures got <==> exists k: nat :: LowestRun(old(ram.State()), ram.total, pages, k)
      ensures !got ==> brk == old(brk) && frames == old(frames) && tables == old(tables)
                       && ram.Memory() == old(ram.Memory()) && ram.State() == old(ram.State())
      ensures got ==>
        && LowestRun(old(ram.State()), ram.total, pages, i) && frames == old(frames) + Run(i, pages)
        && brk == old(brk) + pages * PAGE_SIZE && Words() == old(Words()) + Zeros(pages * PAGE_WORDS)
      // the new pages are valid, readable and writable, and nothing else
      ensures got ==> forall u: u64 :: old(brk) <= u as int < brk ==>
        PteAt(ram.Memory(), ram.FrameBase(), root, u) as int % 1024 == 7
    {
      hide Tree, Held, Chunked, Apart, Translated, Translate, WellFormed, RunsOf, Entry, View, Backed, LowestRun, FreePages,
        PathsFor, PathsOf, Missing, TablesGrown, SpanMapped, OutsideKept, Allocate, SpanGrants, PteAt;
      ghost var mem0, r0, fb, tables0 := ram.Memory(), ram.State(), ram.FrameBase(), tables;
      var address;
      address, i := ram.PageZnalloc(pages);
      if address == 0 {
        return false, i;
      }
      ghost var mem1, r1 := ram.Memory(), ram.State();
      RunGiven(mem0, mem1, r0, ram.total, ram.Usable(), fb, root, tables0, i, pages);
      WholePages(ram, pages, |frames|, i);
      ghost var tables', more;
      tables', more := MmuMapMultiple(ram, pt, brk, address, pages * PAGE_SIZE, 6, root, tables);
      GrownBacked(mem0, mem1, ram.Memory(), r0, ram.State(), ram.total, ram.Usable(), fb, root, tables0, tables', frames, i, pages,
                  PathsFor(brk, pages), more);
      ReadWrite(ram.Memory(), fb, root, brk, pages * PAGE_SIZE, address);
      brk := brk + pages * PAGE_SIZE;
      tables, frames := tables', frames + Run(i, pages);
      got := true;
    }

    /** Give the heap's last page back: unmap it and free its frame, and that frame only. */
    method ShrinkPage()
      requires Ready() && brk > HEAP_BASE
      modifies this`brk, this`frames, this`tables, ram.words, ram.book
      ensures Ready() && brk == old(brk) - PAGE_SIZE
      ensures |old(frames)| > 0 && frames == old(frames)[..|old(frames)| - 1] && tables.Keys == old(tables).Keys
      ensures Words() == old(Words())[..|old(Words())| - PAGE_WORDS]
      ensures ram.State().taken == old(ram.State()).taken - {old(frames)[|old(frames)| - 1]}
      ensures OutsideKept(old(ram.Memory()), ram.Memory(), tables)
    {
      hide Tree, Held, Chunked, Apart, Translated, Translate, WellFormed, RunsOf, Entry, View, Backed, FreePages,
        PathsFor, PathsOf, PathsTo, Missing, TablesGrown, Translates, OutsideKept, Cut, LooksUp;
      ghost var mem0, r0, fb, p := ram.Memory(), ram.State(), ram.FrameBase(), frames[|frames| - 1];
      brk := brk - PAGE_SIZE;
      var physical := MmuTranslate(ram, pt, brk, root, tables);
      LastPage(mem0, r0, ram.total, ram.Usable(), fb, root, tables, frames, brk);
      ram.LocationOf(p);
      ram.PageFree(physical);
      NothingMissing(mem0, fb, root, tables, brk);
      ghost var code, tables', more;
      code, tables', more := MmuUnmap(ram, pt, brk, root, tables);
      NothingGrown(Cut(r0, ram.total, p), tables, ram.State(), tables', ram.total, PathsTo(brk), more);
      ShrunkBacked(mem0, ram.Memory(), r0, ram.total, ram.Usable(), fb, root, tables, frames, brk);
      tables, frames := tables', frames[..|frames| - 1];
    }
  }

  lemma ReadWrite(mem: seq<u64>, fb: nat, root: nat, v: nat, span: nat, paddr: nat)
    requires SpanGrants(mem, fb, root, v, span, paddr, 6) && v + span <= VIRTUAL_LIMIT
    ensures forall u: u64 :: v <= u as int < v + span ==> PteAt(mem, fb, root, u) as int % 1024 == 7
  {
    hide PteAt;
    forall u: u64 | v <= u as int < v + span ensures PteAt(mem, fb, root, u) as int % 1024 == 7 {
      assert u as int % VIRTUAL_LIMIT == u as int;
    }
  }

  /** Words outside the heap's frames are as they were. */
  ghost predicate FramesOnly(mem0: seq<u64>, mem: seq<u64>, frames: seq<nat>)
  {
    |mem| == |mem0| && forall w :: 0 <= w < |mem| && w / PAGE_WORDS !in frames ==> mem[w] == mem0[w]
  }

  /** Page table, page allocator and heap agree on the heap's pages. */
  ghost predicate Backed(mem: seq<u64>, r: Runs, usable: nat, fb: nat, root: nat, tables: Tables, frames: seq<nat>)
  {
    Translated(mem, fb, root, frames) && Chunked(frames, r, usable) && Apart(frames, tables)
  }

  lemma BackedParts(mem: seq<u64>, r: Runs, usable: nat, fb: nat, root: nat, tables: Tables, frames: seq<nat>, a: u64)
    requires Backed(mem, r, usable, fb, root, tables, frames) && |mem| == usable * PAGE_WORDS
    requires HEAP_BASE <= a as int < HEAP_BASE + |frames| * PAGE_SIZE <= VIRTUAL_LIMIT
    ensures Translate(mem, fb, root, a) as int == FrameAddress(fb, frames, a as int - HEAP_BASE)
    ensures InMemory(mem, frames)
    ensures forall k :: 0 <= k < |frames| ==> frames[k] !in tables
  {
    hide Translate, Chunked;
    FrameInMemory(mem, frames, r, usable);
  }

  // ---- growing ---------------------------------------------------------------------------

  /** Frames i, i + 1, ... */
  ghost function Run(i: nat, n: nat): (f: seq<nat>)
    ensures |f| == n
  {
    seq(n, k requires 0 <= k => i + k)
  }

  ghost function Zeros(n: nat): (w: seq<u64>)
    ensures |w| == n
  {
    seq(n, k requires 0 <= k => 0)
  }

  /** A zeroed run of free pages does not touch tables or translation. */
  lemma RunGiven(mem: seq<u64>, mem': seq<u64>, r: Runs, total: nat, usable: nat, fb: nat, root: nat, tables: Tables,
                 i: nat, n: nat)
    requires WellFormed(r) && Held(r, usable, tables) && Tree(mem, fb, root, tables)
    requires LowestRun(r, total, n, i) && n >= 1 && |mem'| == |mem|
    requires forall w :: 0 <= w < |mem| ==> mem'[w] == if i * PAGE_WORDS <= w < (i + n) * PAGE_WORDS then 0 else mem[w]
    ensures Tree(mem', fb, root, tables) && forall v :: Translate(mem', fb, root, v) == Translate(mem, fb, root, v)
    ensures WellFormed(Allocate(r, i, n)) && Held(Allocate(r, i, n), usable, tables) && r.taken <= Allocate(r, i, n).taken
  {
    hide Tree, Translate, Entry;
    AllocateKeeps(r, total, i, n);
    forall p, j | p in tables && 0 <= j < ENTRIES ensures Entry(mem', p, j) == Entry(mem, p, j) {
      TableInMemory(mem, fb, root, tables, p);
      assert p !in Range(i, i + n);
      assert p < i || p >= i + n;
      PageOutside(p, i, n, j);
      EntryOfPage(mem, p, j);
      EntryOfPage(mem', p, j);
    }
    ForeignTranslate(mem, mem', fb, root, tables);
  }

  lemma PageOutside(p: nat, i: nat, n: nat, j: nat)
    requires j < PAGE_WORDS && (p < i || p >= i + n)
    ensures !(i * PAGE_WORDS <= p * PAGE_WORDS + j < (i + n) * PAGE_WORDS)
  {
  }

  lemma {:induction false} RangeSize(lo: nat, hi: nat)
    requires lo <= hi
    ensures |Range(lo, hi)| == hi - lo
  {
    if lo < hi {
      RangeSize(lo, hi - 1);
      assert Range(lo, hi) == Range(lo, hi - 1) + {hi - 1};
    }
  }

  lemma RoomAfterRun(r: Runs, total: nat, i: nat, n: nat)
    requires LowestRun(r, total, n, i) && n >= 1
    ensures |FreePages(Allocate(r, i, n), total)| >= |FreePages(r, total)| - n
  {
    RangeSize(i, i + n);
    var before, after := FreePages(r, total), FreePages(Allocate(r, i, n), total);
    assert before <= after + Range(i, i + n);
    Arithmetic(before, after, Range(i, i + n));
  }

  lemma Arithmetic(a: set<nat>, b: set<nat>, c: set<nat>)
    requires a <= b + c
    ensures |a| <= |b| + |c|
  {
    assert |a| <= |b + c| by { assert a + (b + c - a) == b + c; }
    assert b + c == b + (c - b);
    assert |c - b| <= |c| by { assert c == (c - b) + (c * b); }
  }

  lemma WholePages(ram: Ram, pages: nat, n: nat, i: nat)
    requires ram.Valid() && i + pages <= ram.Usable()
    ensures PagesFor(pages * PAGE_SIZE) == pages
    ensures (HEAP_BASE + n * PAGE_SIZE) % PAGE_SIZE == 0 && ram.Frame(i) % PAGE_SIZE == 0
    ensures ram.Frame(i) + pages * PAGE_SIZE <= PHYSICAL_LIMIT
  {
    assert ram.Frame(i) == ram.start + (ram.BookPages() + i) * PAGE_SIZE;
  }

  lemma GrownBacked(mem0: seq<u64>, mem1: seq<u64>, mem: seq<u64>, r0: Runs, r: Runs, total: nat, usable: nat, fb: nat,
                    root: nat, tables0: Tables, tables: Tables, frames: seq<nat>, i: nat, n: nat, paths: set<Path>, more: set<nat>)
    requires Backed(mem0, r0, usable, fb, root, tables0, frames) && Held(r0, usable, tables0)
    requires WellFormed(r0) && 0 in r0.taken && LowestRun(r0, total, n, i) && n >= 1 && i + n <= usable
    requires |mem| == |mem1| == |mem0| == usable * PAGE_WORDS
    requires forall w :: 0 <= w < |mem0| ==> mem1[w] == if i * PAGE_WORDS <= w < (i + n) * PAGE_WORDS then 0 else mem0[w]
    requires forall v :: Translate(mem1, fb, root, v) == Translate(mem0, fb, root, v)
    requires TablesGrown(Allocate(r0, i, n), tables0, r, tables, total, paths, more) && OutsideKept(mem1, mem, tables)
    requires HEAP_BASE + (|frames| + n) * PAGE_SIZE <= VIRTUAL_LIMIT
    requires SpanMapped(mem1, mem, fb, root, HEAP_BASE + |frames| * PAGE_SIZE, n * PAGE_SIZE, fb + i * PAGE_SIZE)
    ensures Backed(mem, r, usable, fb, root, tables, frames + Run(i, n))
    ensures View(mem, frames + Run(i, n)) == View(mem0, frames) + Zeros(n * PAGE_WORDS)
  {
    hide *;
    RunIsFree(r0, total, i, n);
    GrownRuns(Allocate(r0, i, n), tables0, r, tables, total, paths, more);
    BackedIs(mem0, r0, usable, fb, root, tables0, frames);
    BackedIs(mem, r, usable, fb, root, tables, frames + Run(i, n));
    ChunkedGrown(frames, r0, r, total, usable, i, n, more);
    ApartGrown(frames, r0, total, usable, tables0, tables, i, n, more);
    TranslatedGrown(mem0, mem1, mem, fb, root, frames, i, n);
    ViewGrown(mem0, mem1, mem, r0, usable, tables, frames, i, n);
  }

  lemma BackedIs(mem: seq<u64>, r: Runs, usable: nat, fb: nat, root: nat, tables: Tables, frames: seq<nat>)
    ensures Backed(mem, r, usable, fb, root, tables, frames)
       <==> Translated(mem, fb, root, frames) && Chunked(frames, r, usable) && Apart(frames, tables)
  {
  }

  lemma RunIsFree(r: Runs, total: nat, i: nat, n: nat)
    requires LowestRun(r, total, n, i)
    ensures forall p :: i <= p < i + n ==> p !in r.taken
  {
    forall p | i <= p < i + n ensures p !in r.taken { assert p in Range(i, i + n); }
  }

  lemma GrownRuns(r0: Runs, tables0: Tables, r: Runs, tables: Tables, total: nat, paths: set<Path>, more: set<nat>)
    requires TablesGrown(r0, tables0, r, tables, total, paths, more)
    ensures r == WithPages(r0, more) && more !! r0.taken && tables.Keys == tables0.Keys + more
  {
    hide PathsOf, Missing;
  }

  lemma EndBefore(r: Runs, i: nat)
    requires WellFormed(r) && i > 0 && i !in r.taken
    ensures i - 1 in r.taken ==> i - 1 in r.last
  {
    var p: nat := i - 1;
    assert p in r.taken && p !in r.last ==> p + 1 in r.taken;
  }

  lemma ChunkedGrown(frames: seq<nat>, r0: Runs, r: Runs, total: nat, usable: nat, i: nat, n: nat, more: set<nat>)
    requires Chunked(frames, r0, usable) && WellFormed(r0) && 0 in r0.taken && n >= 1 && i + n <= usable
    requires forall p :: i <= p < i + n ==> p !in r0.taken
    requires r == WithPages(Allocate(r0, i, n), more)
    ensures Chunked(frames + Run(i, n), r, usable)
  {
    var frames' := frames + Run(i, n);
    forall k | 0 <= k < |frames'| ensures InChunk(frames', r, usable, k) {
      if k < |frames| {
        assert InChunk(frames, r0, usable, k);
        assert frames'[k] == frames[k] && (k + 1 < |frames| ==> frames'[k + 1] == frames[k + 1]);
      } else {
        assert frames'[k] == i + (k - |frames|);
        assert k > |frames| ==> frames'[k - 1] == i + (k - |frames|) - 1;
        EndBefore(r0, i);
      }
    }
  }

  lemma ApartGrown(frames: seq<nat>, r0: Runs, total: nat, usable: nat, tables0: Tables, tables: Tables, i: nat, n: nat, more: set<nat>)
    requires Apart(frames, tables0) && Chunked(frames, r0, usable) && Held(r0, usable, tables0)
    requires forall p :: i <= p < i + n ==> p !in r0.taken
    requires n >= 1 && more !! Allocate(r0, i, n).taken && tables.Keys == tables0.Keys + more
    ensures Apart(frames + Run(i, n), tables)
  {
    FramesTaken(frames, r0, usable);
  }

  lemma TranslatedGrown(mem0: seq<u64>, mem1: seq<u64>, mem: seq<u64>, fb: nat, root: nat, frames: seq<nat>, i: nat, n: nat)
    requires Translated(mem0, fb, root, frames) && HEAP_BASE + (|frames| + n) * PAGE_SIZE <= VIRTUAL_LIMIT
    requires forall v :: Translate(mem1, fb, root, v) == Translate(mem0, fb, root, v)
    requires SpanMapped(mem1, mem, fb, root, HEAP_BASE + |frames| * PAGE_SIZE, n * PAGE_SIZE, fb + i * PAGE_SIZE)
    ensures Translated(mem, fb, root, frames + Run(i, n))
  {
    hide Translate, FrameAddress;
    var lo := HEAP_BASE + |frames| * PAGE_SIZE;
    forall u: u64 | HEAP_BASE <= u as int < VIRTUAL_LIMIT
      ensures Translate(mem, fb, root, u) as int == FrameAddress(fb, frames + Run(i, n), u as int - HEAP_BASE)
    {
      assert u as int % VIRTUAL_LIMIT == u as int;
      AddressGrown(fb, frames, i, n, u as int - HEAP_BASE);
    }
  }

  lemma AddressGrown(fb: nat, frames: seq<nat>, i: nat, n: nat, x: nat)
    ensures FrameAddress(fb, frames + Run(i, n), x)
            == if |frames| * PAGE_SIZE <= x < (|frames| + n) * PAGE_SIZE then fb + i * PAGE_SIZE + (x - |frames| * PAGE_SIZE)
               else FrameAddress(fb, frames, x)
  {
    var k := x / PAGE_SIZE;
    assert x == k * PAGE_SIZE + x % PAGE_SIZE;
    if |frames| <= k < |frames| + n {
      assert (frames + Run(i, n))[k] == i + (k - |frames|);
    }
  }

  lemma ViewGrown(mem0: seq<u64>, mem1: seq<u64>, mem: seq<u64>, r0: Runs, usable: nat, tables: Tables, frames: seq<nat>, i: nat, n: nat)
    requires Chunked(frames, r0, usable) && Apart(frames + Run(i, n), tables) && i + n <= usable
    requires forall p :: i <= p < i + n ==> p !in r0.taken
    requires |mem| == |mem1| == |mem0| == usable * PAGE_WORDS
    requires forall w :: 0 <= w < |mem0| ==> mem1[w] == if i * PAGE_WORDS <= w < (i + n) * PAGE_WORDS then 0 else mem0[w]
    requires OutsideKept(mem1, mem, tables)
    ensures View(mem, frames + Run(i, n)) == View(mem0, frames) + Zeros(n * PAGE_WORDS)
  {
    hide Entry, Chunked;
    FramesTaken(frames, r0, usable);
    var frames' := frames + Run(i, n);
    forall k, j | 0 <= k < |frames'| && 0 <= j < PAGE_WORDS
      ensures Entry(mem, frames'[k], j) == if k < |frames| then Entry(mem0, frames[k], j) else 0
    {
      var p := frames'[k];
      if k < |frames| {
        assert p == frames[k] && p in r0.taken;
      } else {
        assert p == i + (k - |frames|);
      }
      EntryOfPage(mem, p, j);
      EntryOfPage(mem0, p, j);
      EntryInPage(p, j);
      WordKept(mem0, mem1, mem, tables, i, n, p, j);
    }
  }

  lemma WordKept(mem0: seq<u64>, mem1: seq<u64>, mem: seq<u64>, tables: Tables, i: nat, n: nat, p: nat, j: nat)
    requires |mem| == |mem1| == |mem0| && j < PAGE_WORDS && (p + 1) * PAGE_WORDS <= |mem| && p !in tables
    requires forall w :: 0 <= w < |mem0| ==> mem1[w] == if i * PAGE_WORDS <= w < (i + n) * PAGE_WORDS then 0 else mem0[w]
    requires OutsideKept(mem1, mem, tables)
    ensures mem[p * PAGE_WORDS + j] == if i <= p < i + n then 0 else mem0[p * PAGE_WORDS + j]
  {
    var w := p * PAGE_WORDS + j;
    assert w / PAGE_WORDS == p by { EntryInPage(p, j); }
    assert mem[w] == mem1[w];
  }

  // ---- shrinking ---------------------------------------------------------------------------

  /** The heap's last page ends a physical run, so cutting there frees just that page. */
  lemma LastPage(mem: seq<u64>, r: Runs, total: nat, usable: nat, fb: nat, root: nat, tables: Tables, frames: seq<nat>, brk: u64)
    requires Backed(mem, r, usable, fb, root, tables, frames) && Held(r, usable, tables)
    requires |frames| > 0 && brk as int == HEAP_BASE + (|frames| - 1) * PAGE_SIZE < VIRTUAL_LIMIT
    ensures var p := frames[|frames| - 1];
            && 1 <= p < usable && p in r.taken && Translate(mem, fb, root, brk) as int == fb + p * PAGE_SIZE
            && Cut(r, total, p).taken == r.taken - {p} && Held(Cut(r, total, p), usable, tables)
  {
    hide Translate;
    var p := frames[|frames| - 1];
    assert InChunk(frames, r, usable, |frames| - 1);
    CutLast(r, total, p);
    assert (brk as int - HEAP_BASE) / PAGE_SIZE == |frames| - 1;
  }

  lemma CutLast(r: Runs, total: nat, p: nat)
    requires p > 0 && p in r.taken && p in r.last
    ensures Cut(r, total, p) == Runs(r.taken - {p}, r.last - {p} + if p - 1 in r.taken then {p - 1} else {})
  {
    assert Range(p, p + 1) == {p};
  }

  /** An address that translates has all its tables. */
  lemma NothingMissing(mem: seq<u64>, fb: nat, root: nat, tables: Tables, v: u64)
    requires Tree(mem, fb, root, tables) && Translate(mem, fb, root, v) != NO_ADDRESS
    ensures Missing(PathsTo(v), PathsOf(tables)) == 0
  {
    hide Tree, PathsOf, LeafAddress, Vpn, IsValid, IsLeaf, Entry;
    TranslateIsLookup(mem, fb, root, tables, v);
    var e2 := Entry(mem, root, Vpn(v, 2));
    NoneValid();
    RootIsTable(mem, fb, root, tables);
    PathInUse(mem, fb, root, tables, root, Vpn(v, 2));
    PathInUse(mem, fb, root, tables, Child(fb, e2), Vpn(v, 1));
    assert PathsTo(v) - PathsOf(tables) == {};
  }

  lemma NoneValid()
    ensures !IsValid(0)
  {
  }

  lemma NothingGrown(r0: Runs, tables0: Tables, r: Runs, tables: Tables, total: nat, paths: set<Path>, more: set<nat>)
    requires TablesGrown(r0, tables0, r, tables, total, paths, more) && Missing(paths, PathsOf(tables0)) == 0
    ensures r == r0 && tables == tables0
  {
    hide PathsOf, Missing;
    assert more == {};
  }

  lemma ShrunkBacked(mem0: seq<u64>, mem: seq<u64>, r: Runs, total: nat, usable: nat, fb: nat, root: nat, tables: Tables,
                     frames: seq<nat>, brk: u64)
    requires Backed(mem0, r, usable, fb, root, tables, frames) && |mem0| == usable * PAGE_WORDS
    requires |frames| > 0 && brk as int == HEAP_BASE + (|frames| - 1) * PAGE_SIZE < VIRTUAL_LIMIT
    requires Translates(mem0, mem, fb, root, brk, Nowhere) && OutsideKept(mem0, mem, tables) && frames[|frames| - 1] > 0
    ensures Backed(mem, Cut(r, total, frames[|frames| - 1]), usable, fb, root, tables, frames[..|frames| - 1])
    ensures View(mem, frames[..|frames| - 1]) == View(mem0, frames)[..(|frames| - 1) * PAGE_WORDS]
  {
    var frames' := frames[..|frames| - 1];
    LimitAligned(|frames|);
    BackedIs(mem0, r, usable, fb, root, tables, frames);
    assert InChunk(frames, r, usable, |frames| - 1);
    hide *;
    BackedIs(mem, Cut(r, total, frames[|frames| - 1]), usable, fb, root, tables, frames');
    Distinct(frames, tables);
    ChunkedShrunk(frames, r, total, usable);
    TranslatedShrunk(mem0, mem, fb, root, frames, brk);
    FrameInMemory(mem0, frames, r, usable);
    ViewShrunk(mem0, mem, tables, frames);
    ApartShrunk(frames, tables);
  }

  lemma LimitAligned(n: nat)
    requires n > 0 && HEAP_BASE + (n - 1) * PAGE_SIZE < VIRTUAL_LIMIT
    ensures HEAP_BASE + n * PAGE_SIZE <= VIRTUAL_LIMIT
  {
  }

  lemma Distinct(frames: seq<nat>, tables: Tables)
    requires Apart(frames, tables)
    ensures forall j, k :: 0 <= j < k < |frames| ==> frames[j] != frames[k]
  {
  }

  lemma ApartShrunk(frames: seq<nat>, tables: Tables)
    requires Apart(frames, tables) && |frames| > 0
    ensures Apart(frames[..|frames| - 1], tables)
  {
  }

  lemma ChunkedShrunk(frames: seq<nat>, r: Runs, total: nat, usable: nat)
    requires Chunked(frames, r, usable) && |frames| > 0
    requires frames[|frames| - 1] > 0 && forall j, k :: 0 <= j < k < |frames| ==> frames[j] != frames[k]
    ensures Chunked(frames[..|frames| - 1], Cut(r, total, frames[|frames| - 1]), usable)
  {
    hide Cut;
    var p, frames' := frames[|frames| - 1], frames[..|frames| - 1];
    assert InChunk(frames, r, usable, |frames| - 1);
    CutLast(r, total, p);
    forall k | 0 <= k < |frames'| ensures InChunk(frames', Cut(r, total, p), usable, k) {
      assert InChunk(frames, r, usable, k);
      assert frames[k] != p && (k > 0 ==> frames'[k - 1] == frames[k - 1]);
    }
  }

  lemma TranslatedShrunk(mem0: seq<u64>, mem: seq<u64>, fb: nat, root: nat, frames: seq<nat>, brk: u64)
    requires Translated(mem0, fb, root, frames)
    requires |frames| > 0 && brk as int == HEAP_BASE + (|frames| - 1) * PAGE_SIZE && brk as int + PAGE_SIZE <= VIRTUAL_LIMIT
    requires Translates(mem0, mem, fb, root, brk, Nowhere)
    ensures Translated(mem, fb, root, frames[..|frames| - 1])
  {
    hide Translate, FrameAddress, SamePage;
    assert brk as int % PAGE_SIZE == 0;
    forall u: u64 | HEAP_BASE <= u as int < VIRTUAL_LIMIT
      ensures Translate(mem, fb, root, u) as int == FrameAddress(fb, frames[..|frames| - 1], u as int - HEAP_BASE)
    {
      PageOfSpan(u, brk as int);
      assert u as int % VIRTUAL_LIMIT == u as int;
      AddressShrunk(fb, frames, u as int - HEAP_BASE);
    }
  }

  lemma AddressShrunk(fb: nat, frames: seq<nat>, x: nat)
    requires |frames| > 0
    ensures FrameAddress(fb, frames[..|frames| - 1], x)
            == if (|frames| - 1) * PAGE_SIZE <= x < |frames| * PAGE_SIZE then NO_ADDRESS as int else FrameAddress(fb, frames, x)
  {
    var k := x / PAGE_SIZE;
    assert x == k * PAGE_SIZE + x % PAGE_SIZE;
  }

  lemma ViewShrunk(mem0: seq<u64>, mem: seq<u64>, tables: Tables, frames: seq<nat>)
    requires Apart(frames, tables) && InMemory(mem0, frames) && |frames| > 0 && OutsideKept(mem0, mem, tables)
    ensures View(mem, frames[..|frames| - 1]) == View(mem0, frames)[..(|frames| - 1) * PAGE_WORDS]
  {
    hide Entry;
    forall k, j | 0 <= k < |frames| && 0 <= j < PAGE_WORDS ensures Entry(mem, frames[k], j) == Entry(mem0, frames[k], j) {
      EntryOfPage(mem, frames[k], j);
      EntryOfPage(mem0, frames[k], j);
      EntryInPage(frames[k], j);
    }
  }

  /**
   * Heap, page table and page allocator agree: an address below kernel_heap_vaddr translates into a taken frame,
   * addresses of different heap pages into different frames, and from kernel_heap_vaddr on nothing is mapped.
   */
  lemma HeapAgrees(heap: KernelMemory, u: u64, v: u64)
    requires heap.Ready() && HEAP_BASE <= u as int < VIRTUAL_LIMIT && HEAP_BASE <= v as int < VIRTUAL_LIMIT
    ensures var mem, fb := heap.ram.Memory(), heap.ram.FrameBase();
      var a, b := Translate(mem, fb, heap.root, u) as int, Translate(mem, fb, heap.root, v) as int;
      && (u as int < heap.brk ==> a >= fb && (a - fb) / PAGE_SIZE in heap.ram.State().taken
                                  && (a - fb) / PAGE_SIZE !in heap.tables && (a - fb) % PAGE_SIZE == u as int % PAGE_SIZE)
      && (u as int >= heap.brk ==> a == NO_ADDRESS as int)
      && (u as int < heap.brk && v as int < heap.brk && u as int / PAGE_SIZE != v as int / PAGE_SIZE ==>
            b >= fb && (a - fb) / PAGE_SIZE != (b - fb) / PAGE_SIZE)
  {
    hide Translate, Chunked, WellFormed, Tree, Held, RunsOf;
    FramesTaken(heap.frames, heap.ram.State(), heap.ram.Usable());
    FramePage(heap.ram.FrameBase(), heap.frames, u as int - HEAP_BASE);
    FramePage(heap.ram.FrameBase(), heap.frames, v as int - HEAP_BASE);
    PageApart(u as int - HEAP_BASE, v as int - HEAP_BASE);
  }

  lemma FramePage(fb: nat, frames: seq<nat>, x: nat)
    ensures x / PAGE_SIZE < |frames| ==>
      var a := FrameAddress(fb, frames, x);
      a >= fb && (a - fb) / PAGE_SIZE == frames[x / PAGE_SIZE] && (a - fb) % PAGE_SIZE == x % PAGE_SIZE
  {
  }

  lemma PageApart(x: nat, y: nat)
    ensures (HEAP_BASE + x) / PAGE_SIZE == HEAP_BASE / PAGE_SIZE + x / PAGE_SIZE && (HEAP_BASE + x) % PAGE_SIZE == x % PAGE_SIZE
    ensures (HEAP_BASE + y) / PAGE_SIZE == HEAP_BASE / PAGE_SIZE + y / PAGE_SIZE
  {
  }
}
