/**
 * The kernel heap (kmalloc.c): first-fit allocation with splitting, growth at the end, freeing with coalescing and
 * shrinking, over headers that are words behind the kernel page table.
 */
module Kmalloc {
  import opened HeapBlocks
  import opened HeapPages
  import opened Mmu
  import opened Page

  /** ((bytes + 7) / 8) * 8 */
  function Rounded(bytes: nat): (r: nat)
    ensures bytes <= r < bytes + 8 && r % 8 == 0
  {
    (bytes + 7) / 8 * 8
  }

  /** The pages one growth asks for. */
  function PagesToAlloc(bytes: nat): (n: nat)
    ensures n >= 1 && bytes + HEADER <= n * PAGE_SIZE < bytes + HEADER + PAGE_SIZE
  {
    (bytes + HEADER + PAGE_SIZE - 1) / PAGE_SIZE
  }

  // ---- walking the list -----------------------------------------------------------------

  /** What the words at a node say. */
  lemma NodeFacts(w: seq<u64>, blocks: seq<Block>, brk: nat, i: nat)
    requires Heap(w, blocks, brk) && i < |Nodes(blocks)|
    ensures var nodes := Nodes(blocks);
            && InHeap(w, nodes[i]) && InHeap(w, nodes[i] + 8) && InHeap(w, nodes[i] + 16)
            && At(w, nodes[i] + 8) as int == Prev(nodes, i) && At(w, nodes[i] + 16) as int == Next(nodes, i)
            && (i == 0 ==> nodes[i] == HEAP_BASE && At(w, nodes[i]) == 0) && (i > 0 ==> nodes[i] > HEAP_BASE)
  {
    hide Tiles, Headers, FreeAt, At, InHeap;
    NodesSpaced(blocks, |w|);
    assert LinkedAt(w, Nodes(blocks), i);
    NodeCells(w, Nodes(blocks), i);
  }

  /** The block a node is the header of. */
  lemma NodeBlock(w: seq<u64>, blocks: seq<Block>, brk: nat, i: nat) returns (k: nat)
    requires Heap(w, blocks, brk) && 0 < i < |Nodes(blocks)|
    ensures k < |blocks| && blocks[k].free && blocks[k].at == Nodes(blocks)[i] && At(w, Nodes(blocks)[i]) as int == blocks[k].size
    ensures Nodes(blocks[..k]) == Nodes(blocks)[..i] && blocks == blocks[..k] + [blocks[k]] + blocks[k + 1..]
    ensures EndOf(blocks[k]) <= brk
  {
    hide Tiles, FreeAt, At, Linked;
    k := FreeAtFrom(blocks, i - 1);
    Disjoint(blocks, brk, blocks[k], blocks[k]);
  }

  lemma PageAhead(ram: Ram, r: Runs)
    requires ram.Valid() && |FreePages(r, ram.total)| >= 1
    ensures exists k: nat :: LowestRun(r, ram.total, 1, k)
    ensures forall k: nat :: LowestRun(r, ram.total, 1, k) ==> k + 1 <= ram.Usable()
  {
    hide FreePages, LowestRun;
    assert FreePages(r, ram.total) != {};
    LowestExists(r, ram.total);
    LowestIsLow(r, ram.total, 1);
    UsableEnough(ram);
  }

  lemma InitCells(w: seq<u64>)
    requires |w| == PAGE_WORDS
    ensures InHeap(w, HEAP_BASE) && InHeap(w, HEAP_BASE + 8) && InHeap(w, HEAP_BASE + 16)
    ensures InHeap(w, FIRST) && InHeap(w, FIRST + 8) && InHeap(w, FIRST + 16)
  {
  }

  /** The words init_kernel_heap writes before it links its first free block. */
  lemma InitHeap(w1: seq<u64>, w2: seq<u64>, w3: seq<u64>)
    requires w1 == Put(Zeros(PAGE_WORDS), HEAP_BASE, 0) && w2 == Put(w1, HEAP_BASE + 16, HEAP_BASE)
    requires w3 == Put(w2, HEAP_BASE + 8, HEAP_BASE)
    ensures var w := Put(w3, FIRST, PAGE_SIZE - 2 * HEADER);
            && At(w, HEAP_BASE + 16) == HEAP_BASE
            && Heap(InsertAfter(w, HEAP_BASE, FIRST), [Block(FIRST, PAGE_SIZE - 2 * HEADER, true)], HEAP_BASE + PAGE_SIZE)
  {
    hide InsertAfter, Heap, At, Put;
    var w: seq<u64> := [0, HEAP_BASE, HEAP_BASE];
    HeadWords(w1, w2, w3);
    HeadAlone();
    AddBlock(w, [], FIRST, PAGE_WORDS - 3, FIRST, HEAP_BASE, PAGE_SIZE - 2 * HEADER);
    InitCells(w3);
    AtPut(w3, FIRST, PAGE_SIZE - 2 * HEADER, HEAP_BASE + 16);
    AtMore(w, Zeros(PAGE_WORDS - 3), HEAP_BASE + 16);
    assert [] + [Block(FIRST, PAGE_SIZE - 2 * HEADER, true)] == [Block(FIRST, PAGE_SIZE - 2 * HEADER, true)];
  }

  lemma HeadWords(w1: seq<u64>, w2: seq<u64>, w3: seq<u64>)
    requires w1 == Put(Zeros(PAGE_WORDS), HEAP_BASE, 0) && w2 == Put(w1, HEAP_BASE + 16, HEAP_BASE)
    requires w3 == Put(w2, HEAP_BASE + 8, HEAP_BASE)
    ensures w3 == [0, HEAP_BASE, HEAP_BASE] + Zeros(PAGE_WORDS - 3)
  {
    var z := Zeros(PAGE_WORDS);
    assert w1 == z[0 := 0];
    assert w2 == w1[2 := HEAP_BASE];
    assert w3 == w2[1 := HEAP_BASE];
  }

  /** A heap of just the list head. */
  lemma HeadAlone()
    ensures Heap([0, HEAP_BASE, HEAP_BASE], [], FIRST) && Nodes([]) == [HEAP_BASE]
    ensures InHeap([0, HEAP_BASE, HEAP_BASE], HEAP_BASE + 16) && At([0, HEAP_BASE, HEAP_BASE], HEAP_BASE + 16) == HEAP_BASE
  {
    var w: seq<u64> := [0, HEAP_BASE, HEAP_BASE];
    assert (HEAP_BASE - HEAP_BASE) / 8 == 0 && (HEAP_BASE + 8 - HEAP_BASE) / 8 == 1 && (HEAP_BASE + 16 - HEAP_BASE) / 8 == 2;
    assert At(w, HEAP_BASE) == 0 && At(w, HEAP_BASE + 8) == HEAP_BASE && At(w, HEAP_BASE + 16) == HEAP_BASE;
    assert Tiles([], FIRST, FIRST);
    assert LinkedAt(w, [HEAP_BASE], 0);
  }

  lemma OneFree(blocks: seq<Block>)
    requires |blocks| == 1 && blocks[0].free
    ensures NoneAdjacent(blocks) && Live(blocks) == []
  {
    assert blocks[..0] == [];
  }

  // ---- handing out -----------------------------------------------------------------------

  lemma TakenApart(a: seq<Block>, x: Block, rest: seq<Block>, b: seq<Block>)
    requires NoneAdjacent(a) && NoneAdjacent(b) && (b != [] ==> !b[0].free) && !x.free
    requires |rest| <= 1
    ensures NoneAdjacent(a + ([x] + rest) + b)
  {
    var blocks := a + ([x] + rest) + b;
    forall k | 0 < k < |blocks| ensures !(blocks[k - 1].free && blocks[k].free) {
      if k < |a| {
        assert blocks[k - 1] == a[k - 1] && blocks[k] == a[k];
      } else if k == |a| || k == |a| + 1 {
        assert blocks[|a|] == x;
      } else if k > |a| + 1 + |rest| {
        var m := k - (|a| + 1 + |rest|);
        assert blocks[k - 1] == b[m - 1] && blocks[k] == b[m];
      }
    }
  }

  /** The blocks around a free one, when no two free blocks touch. */
  lemma SplitApart(a: seq<Block>, x: Block, b: seq<Block>)
    requires NoneAdjacent(a + [x] + b)
    ensures NoneAdjacent(a) && NoneAdjacent(b) && (x.free && b != [] ==> !b[0].free)
  {
    var blocks := a + [x] + b;
    forall k | 0 < k < |a| ensures !(a[k - 1].free && a[k].free) {
      assert blocks[k - 1] == a[k - 1] && blocks[k] == a[k];
    }
    forall k | 0 < k < |b| ensures !(b[k - 1].free && b[k].free) {
      assert blocks[|a| + 1 + k - 1] == b[k - 1] && blocks[|a| + 1 + k] == b[k];
    }
    if b != [] { assert blocks[|a| + 1] == b[0] && blocks[|a|] == x; }
  }

  lemma LiveAround(a: seq<Block>, x: Block, rest: seq<Block>, b: seq<Block>)
    requires |rest| <= 1 && (rest != [] ==> rest[0].free)
    ensures Live(a + ([x] + rest) + b) == Live(a) + (if x.free then [] else [x]) + Live(b)
  {
    hide Live, FreeAt;
    if rest == [] {
      assert a + ([x] + rest) + b == a + [x] + b;
      Around(a, x, b);
    } else {
      var z := rest[0];
      assert a + ([x] + rest) + b == a + [x] + ([z] + b);
      Around(a, x, [z] + b);
      Concat([z], b);
      Single(z);
      assert [] + Live(b) == Live(b);
    }
  }

  // ---- searching -------------------------------------------------------------------------

  /** Some free block is large enough. */
  ghost predicate Fits(blocks: seq<Block>, bytes: nat)
  {
    exists c :: c in blocks && c.free && c.size >= bytes
  }

  /** No free block before an address is large enough. */
  ghost predicate NoFitBefore(blocks: seq<Block>, bytes: nat, limit: nat)
  {
    forall c :: c in blocks && c.free && c.at < limit ==> c.size < bytes
  }

  lemma {:induction false} FreeIndex(blocks: seq<Block>, c: Block) returns (i: nat)
    requires c in blocks && c.free
    ensures i < |FreeAt(blocks)| && FreeAt(blocks)[i] == c.at
  {
    var init, b := blocks[..|blocks| - 1], blocks[|blocks| - 1];
    if c == b {
      i := |FreeAt(init)|;
    } else {
      assert c in init;
      i := FreeIndex(init, c);
    }
  }

  /** When the nodes before the i-th are too small, so are the free blocks before it. */
  lemma NodesTooSmall(w: seq<u64>, blocks: seq<Block>, brk: nat, i: nat, bytes: nat, limit: nat)
    requires Heap(w, blocks, brk) && 0 < i <= |Nodes(blocks)|
    requires forall j :: 0 < j < i ==> At(w, Nodes(blocks)[j]) as int < bytes
    requires i < |Nodes(blocks)| ==> limit <= Nodes(blocks)[i]
    ensures NoFitBefore(blocks, bytes, limit)
  {
    hide Tiles, FreeAt, At, Linked;
    HeapSpaced(w, blocks, brk);
    forall c | c in blocks && c.free && c.at < limit ensures c.size < bytes {
      var k := FreeIndex(blocks, c);
      assert Nodes(blocks)[k + 1] == c.at;
      SizeOf(w, blocks, brk, c);
    }
  }

  lemma NoneFits(blocks: seq<Block>, brk: nat, bytes: nat)
    requires Tiles(blocks, FIRST, brk) && NoFitBefore(blocks, bytes, brk)
    ensures !Fits(blocks, bytes)
  {
    hide Tiles;
    forall c | c in blocks && c.free ensures c.size < bytes {
      Disjoint(blocks, brk, c, c);
    }
  }

  /** A store into a live payload is the client's business: the heap stays as it is. */
  lemma PayloadPut(w: seq<u64>, blocks: seq<Block>, brk: nat, c: Block, x: nat, v: u64)
    requires Heap(w, blocks, brk) && c in blocks && !c.free && c.at + HEADER <= x < EndOf(c) && x % 8 == 0
    ensures InHeap(w, x) && Heap(Put(w, x, v), blocks, brk)
  {
    hide Tiles, At, Put, InHeap, Nodes, Linked;
    Disjoint(blocks, brk, c, c);
    CellIn(w, x);
    BlockOffLinks(blocks, brk, c, x);
    LinkedPut(w, Nodes(blocks), x, v);
    AtPut(w, x, v, HEAP_BASE);
    forall d | d in blocks ensures At(Put(w, x, v), d.at) as int == d.size {
      Disjoint(blocks, brk, c, d);
      AtPut(w, x, v, d.at);
    }
  }

  /** The addresses lo .. hi read as 0 now and the others as before. */
  ghost predicate ZeroedUpTo(w: seq<u64>, w': seq<u64>, lo: nat, hi: nat)
  {
    forall y: nat :: At(w', y) == if lo <= y < hi then 0 else At(w, y)
  }

  lemma ZeroNone(w: seq<u64>, lo: nat)
    ensures ZeroedUpTo(w, w, lo, lo)
  {
  }

  lemma ZeroStep(w: seq<u64>, w1: seq<u64>, lo: nat, at: nat)
    requires ZeroedUpTo(w, w1, lo, at) && InHeap(w1, at) && lo <= at && at % 8 == 0
    ensures ZeroedUpTo(w, Put(w1, at, 0), lo, at + 8)
  {
    hide At, Put, InHeap;
    forall y: nat ensures At(Put(w1, at, 0), y) == if lo <= y < at + 8 then 0 else At(w, y) {
      AtPut(w1, at, 0, y);
      Unaligned(w1, y);
    }
  }

  /** Live blocks away from a stretch of words do not notice a change in it. */
  lemma KeptOutside(w0: seq<u64>, w: seq<u64>, w': seq<u64>, blocks0: seq<Block>, w1: seq<u64>, blocks: seq<Block>, brk: nat,
                    x: Block, taken: Block)
    requires LiveKept(w0, w, blocks0) && Heap(w1, blocks, brk) && x in blocks && x.free
    requires forall c :: c in blocks0 ==> c in blocks
    requires taken.at == x.at && taken.size <= x.size
    requires ZeroedUpTo(w, w', taken.at + HEADER, EndOf(taken))
    ensures LiveKept(w0, w', blocks0) && ZeroPayload(w', taken)
  {
    hide Tiles, At, Linked, Headers;
    forall c, y: nat | c in blocks0 && !c.free && c.at + HEADER <= y < EndOf(c) ensures At(w', y) == At(w0, y) {
      Disjoint(blocks, brk, c, x);
    }
  }

  lemma KeptThrough(w0: seq<u64>, w1: seq<u64>, w: seq<u64>, blocks0: seq<Block>, blocks: seq<Block>)
    requires LiveKept(w0, w1, blocks0) && LiveKept(w1, w, blocks) && forall c :: c in blocks0 ==> c in blocks
    ensures LiveKept(w0, w, blocks0)
  {
    hide At;
  }

  lemma KeptHere(w: seq<u64>, blocks: seq<Block>)
    ensures LiveKept(w, w, blocks)
  {
  }

  /** Behind the old blocks a new free one: nothing live was added. */
  lemma GrownApart(blocks: seq<Block>, x: Block)
    requires x.free
    ensures NoneAdjacent([]) && blocks + [x] == blocks + [x] + [] && Live(blocks + [x]) == Live(blocks)
  {
    hide Live, FreeAt;
    Concat(blocks, [x]);
    Single(x);
    assert Live(blocks) + [] == Live(blocks);
  }

  lemma LiveOf(blocks0: seq<Block>, a: seq<Block>, x: Block, b: seq<Block>)
    requires Live(blocks0) == Live(a + [x] + b) && x.free
    ensures |Live(a)| <= |Live(blocks0)| && Live(blocks0)[..|Live(a)|] == Live(a) && Live(blocks0)[|Live(a)|..] == Live(b)
  {
    hide Live, FreeAt;
    Around(a, x, b);
    assert Live(a) + [] + Live(b) == Live(a) + Live(b);
  }

  lemma FittingIs(blocks: seq<Block>, x: Block, bytes: nat)
    requires x in blocks && x.free && x.size >= bytes && NoFitBefore(blocks, bytes, x.at)
    ensures Fits(blocks, bytes) && FirstFitting(blocks, bytes, x.at)
  {
  }

  lemma FitsIs(blocks: seq<Block>, bytes: nat)
    ensures Fits(blocks, bytes) <==> !(forall c :: c in blocks && c.free ==> c.size < bytes)
  {
  }

  lemma LowestFit(blocks: seq<Block>, bytes: nat, at: nat)
    requires FirstFitting(blocks, bytes, at)
    ensures forall c :: c in blocks && c.free && c.size >= bytes ==> at <= c.at
    ensures exists c :: c in blocks && c.free && c.size >= bytes && c.at == at
  {
  }

  // ---- freeing ----------------------------------------------------------------------------

  /** No two free neighbours before a limit. */
  ghost predicate Settled(blocks: seq<Block>, limit: nat)
  {
    forall k :: 0 < k < |blocks| && blocks[k - 1].free && blocks[k].free ==> blocks[k - 1].at >= limit
  }

  lemma {:induction false} TileNext(blocks: seq<Block>, lo: nat, hi: nat, k: nat)
    requires Tiles(blocks, lo, hi) && k + 1 < |blocks|
    ensures EndOf(blocks[k]) == blocks[k + 1].at
  {
    var init, b := blocks[..|blocks| - 1], blocks[|blocks| - 1];
    if k + 1 < |init| {
      TileNext(init, lo, b.at, k);
    } else {
      TilesStart(init, lo, b.at);
    }
  }

  /** A free block and the next node: they touch exactly when the block behind it is free. */
  lemma Touching(w: seq<u64>, blocks: seq<Block>, brk: nat, i: nat, k: nat)
    requires Heap(w, blocks, brk) && 0 < i < |Nodes(blocks)| && k < |blocks| && blocks[k].free
    requires Nodes(blocks[..k]) == Nodes(blocks)[..i] && blocks[k].at == Nodes(blocks)[i]
    ensures EndOf(blocks[k]) == Next(Nodes(blocks), i) <==> k + 1 < |blocks| && blocks[k + 1].free
    ensures k + 1 < |blocks| && blocks[k + 1].free ==>
      && i + 1 < |Nodes(blocks)| && Nodes(blocks)[i + 1] == blocks[k + 1].at
      && blocks == blocks[..k] + [blocks[k], blocks[k + 1]] + blocks[k + 2..]
      && |Nodes(blocks[..k])| == i
  {
    hide Tiles, FreeAt, At, Linked, Headers;
    TileOrder(blocks, FIRST, brk);
    if k + 1 < |blocks| {
      TileNext(blocks, FIRST, brk, k);
      if blocks[k + 1].free {
        assert blocks == blocks[..k] + [blocks[k], blocks[k + 1]] + blocks[k + 2..];
        NodesAroundTwo(blocks[..k], blocks[k], blocks[k + 1], blocks[k + 2..]);
      }
    }
    if i + 1 < |Nodes(blocks)| {
      var m := FreeAtFrom(blocks, i);
      assert EndOf(blocks[k]) == blocks[m].at ==> m == k + 1;
    }
  }

  /** Once a node does not touch the next, everything before the next node is settled. */
  lemma SettledNext(w: seq<u64>, blocks: seq<Block>, brk: nat, i: nat, k: nat)
    requires Heap(w, blocks, brk) && 0 < i < |Nodes(blocks)| && k < |blocks| && blocks[k].free
    requires Nodes(blocks[..k]) == Nodes(blocks)[..i] && blocks[k].at == Nodes(blocks)[i]
    requires EndOf(blocks[k]) != Next(Nodes(blocks), i) && Settled(blocks, blocks[k].at)
    ensures Settled(blocks, if i + 1 < |Nodes(blocks)| then Nodes(blocks)[i + 1] else brk)
  {
    hide Tiles, FreeAt, At, Linked, Headers;
    Touching(w, blocks, brk, i, k);
    TileOrder(blocks, FIRST, brk);
    HeapSpaced(w, blocks, brk);
    var limit := if i + 1 < |Nodes(blocks)| then Nodes(blocks)[i + 1] else brk;
    forall j | 0 < j < |blocks| && blocks[j - 1].free && blocks[j].free ensures blocks[j - 1].at >= limit {
      assert j - 1 > k;
      var m := FreeIndex(blocks, blocks[j - 1]);
      assert Nodes(blocks)[m + 1] == blocks[j - 1].at;
    }
  }

  lemma SettledAll(blocks: seq<Block>, brk: nat)
    requires Tiles(blocks, FIRST, brk) && Settled(blocks, brk)
    ensures NoneAdjacent(blocks)
  {
    hide Tiles;
    forall k | 0 < k < |blocks| ensures !(blocks[k - 1].free && blocks[k].free) {
      Disjoint(blocks, brk, blocks[k - 1], blocks[k - 1]);
    }
  }

  /** Making two neighbours one unsettles nothing before them, and hands out nothing. */
  lemma SettledMerge(a: seq<Block>, x: Block, y: Block, b: seq<Block>, z: Block, brk: nat)
    requires Tiles(a + [x, y] + b, FIRST, brk) && Settled(a + [x, y] + b, x.at)
    requires x.free && y.free && z.free && z.at == x.at
    ensures Settled(a + [z] + b, z.at) && Live(a + [z] + b) == Live(a + [x, y] + b)
    ensures forall c :: c in a + [x, y] + b && !c.free ==> c in a + [z] + b
  {
    hide Tiles, Live, FreeAt;
    var blocks, blocks' := a + [x, y] + b, a + [z] + b;
    assert blocks == (a + [x]) + [y] + b;
    Around(a + [x], y, b);
    Around(a, x, []);
    Around(a, z, b);
    assert a + [x] + [] == a + [x];
    NoneFree();
    assert Live(a) + [] + [] + [] + Live(b) == Live(a) + [] + Live(b);
    assert blocks[|a|] == x;
    assert forall k :: 0 <= k < |a| ==> blocks'[k] == a[k] == blocks[k];
    assert forall k :: |a| + 1 < k < |blocks'| ==> blocks'[k - 1] == blocks[k];
    SettledBelow(blocks, blocks', |a|, z.at);
    TileOrder(blocks, FIRST, brk);
    forall k | |a| < k < |blocks'| && blocks'[k - 1].free && blocks'[k].free ensures blocks'[k - 1].at >= z.at {
      assert k > |a| + 1 ==> EndOf(blocks[|a|]) <= blocks[k].at;
    }
  }

  /** Where both lists agree on what is free, they agree on what is settled. */
  lemma SettledBelow(blocks: seq<Block>, blocks': seq<Block>, n: nat, limit: nat)
    requires n < |blocks| && n < |blocks'| && Settled(blocks, limit) && blocks[n].free == blocks'[n].free
    requires forall k :: 0 <= k < n ==> blocks'[k] == blocks[k]
    ensures forall k :: 0 < k <= n && blocks'[k - 1].free && blocks'[k].free ==> blocks'[k - 1].at >= limit
  {
  }

  /** Before a block, and after it. */
  lemma NodesBefore(w: seq<u64>, a: seq<Block>, x: Block, b: seq<Block>, brk: nat)
    requires Heap(w, a + [x] + b, brk) && !x.free
    ensures Nodes(a + [x] + b) == Nodes(a) + FreeAt(b)
    ensures forall m :: 0 <= m < |Nodes(a)| ==> Nodes(a)[m] < x.at
    ensures forall m :: 0 <= m < |FreeAt(b)| ==> FreeAt(b)[m] > x.at
  {
    hide Tiles, FreeAt, At, Linked, Headers, Nodes;
    var y := x.(free := true);
    NodesAround(a, x, b);
    NodesAround(a, y, b);
    assert Nodes(a) + [] + FreeAt(b) == Nodes(a) + FreeAt(b);
    assert x in a + [x] + b;
    Disjoint(a + [x] + b, brk, x, x);
    OneTile(x);
    OneTile(y);
    Retiled(a, [x], [y], b, FIRST, brk, x.at, EndOf(x));
    NodesSpaced(a + [y] + b, |w|);
    SpacedAround(Nodes(a), x.at, FreeAt(b), |w|);
  }

  lemma SpacedAround(a: seq<nat>, x: nat, b: seq<nat>, words: nat)
    requires Spaced(a + [x] + b, words)
    ensures forall m :: 0 <= m < |a| ==> a[m] < x
    ensures forall m :: 0 <= m < |b| ==> b[m] > x
  {
    var nodes := a + [x] + b;
    forall m | 0 <= m < |a| ensures a[m] < x { assert nodes[m] == a[m] && nodes[|a|] == x; }
    forall m | 0 <= m < |b| ensures b[m] > x { assert nodes[|a| + 1 + m] == b[m] && nodes[|a|] == x; }
  }

  class KernelHeap {
    const mem: KernelMemory
    ghost var blocks: seq<Block>
    var numberOfFrees: nat

    ghost predicate Valid()
      reads this, mem, mem.ram.words, mem.ram.book
    {
      && mem.Ready() && Heap(mem.Words(), blocks, mem.brk)
      && NoneAdjacent(blocks)
    }

    constructor (mem: KernelMemory)
      requires mem.Ready() && mem.frames == []
      requires |FreePages(mem.ram.State(), mem.ram.total)| >= 1 + Missing(PathsFor(HEAP_BASE, 1), PathsOf(mem.tables))
      modifies mem, mem.ram.words, mem.ram.book
      ensures Valid() && this.mem == mem && mem.brk == HEAP_BASE + PAGE_SIZE
      ensures blocks == [Block(FIRST, PAGE_SIZE - 2 * HEADER, true)] && Live(blocks) == []
    {
      this.mem, this.blocks, this.numberOfFrees := mem, [], 0;
      new;
      hide *;
      InitKernelHeap();
    }

    /** The list head and the size of the first free block, in a page of zeros. */
    method StoreHead() returns (p: u64)
      requires mem.Ready() && mem.Words() == Zeros(PAGE_WORDS)
      modifies mem.ram.words
      ensures mem.Ready() && p as int == FIRST
      ensures InHeap(mem.Words(), HEAP_BASE) && InHeap(mem.Words(), HEAP_BASE + 8) && InHeap(mem.Words(), HEAP_BASE + 16)
      ensures InHeap(mem.Words(), FIRST) && InHeap(mem.Words(), FIRST + 8) && InHeap(mem.Words(), FIRST + 16)
      ensures At(mem.Words(), HEAP_BASE + 16) == HEAP_BASE
      ensures Heap(InsertAfter(mem.Words(), HEAP_BASE, FIRST), [Block(FIRST, PAGE_SIZE - 2 * HEADER, true)], HEAP_BASE + PAGE_SIZE)
    {
      hide At, Put, InHeap, Mapped, Backed, View, FramesOnly, Heap, InsertAfter, Zeros, PteAt, KernelMemory.Ready;
      ghost var w := Zeros(PAGE_WORDS);
      InitCells(w);
      mem.Store(HEAP_BASE, 0);
      ghost var w1 := mem.Words();
      InHeapSame(w, w1);
      mem.Store(HEAP_BASE + 16, HEAP_BASE);
      ghost var w2 := mem.Words();
      InHeapSame(w, w2);
      mem.Store(HEAP_BASE + 8, HEAP_BASE);
      ghost var w3 := mem.Words();
      InHeapSame(w, w3);
      p := HEAP_BASE + HEADER;
      mem.Store(p, PAGE_SIZE - 2 * HEADER);
      InHeapSame(w, mem.Words());
      InitHeap(w1, w2, w3);
    }

    /** init_kernel_heap: one page, holding the list head and one free block that fills the rest of it. */
    method InitKernelHeap()
      requires mem.Ready() && mem.frames == []
      requires |FreePages(mem.ram.State(), mem.ram.total)| >= 1 + Missing(PathsFor(HEAP_BASE, 1), PathsOf(mem.tables))
      modifies this`blocks, mem, mem.ram.words, mem.ram.book
      ensures Valid() && mem.brk == HEAP_BASE + PAGE_SIZE == 0x1_2000_1000
      ensures blocks == [Block(0x1_2000_0018, 4096 - 48, true)] && Live(blocks) == []
    {
      hide At, Put, InHeap, Mapped, Backed, View, FramesOnly, Heap, NoneAdjacent, FreePages, LowestRun, Missing, PathsFor, PathsOf, Live,
        InsertAfter, Zeros, PteAt;
      MappedTree(mem.ram, mem.root, mem.tables);
      PageAhead(mem.ram, mem.ram.State());
      forall k: nat | LowestRun(mem.ram.State(), mem.ram.total, 1, k)
        ensures |FreePages(Allocate(mem.ram.State(), k, 1), mem.ram.total)| >= Missing(PathsFor(HEAP_BASE, 1), PathsOf(mem.tables))
      {
        RoomAfterRun(mem.ram.State(), mem.ram.total, k, 1);
      }
      var got;
      ghost var i;
      got, i := mem.Grow(1);
      assert mem.Words() == Zeros(PAGE_WORDS);
      var p := StoreHead();
      DllInsert(HEAP_BASE, p);
      blocks := [Block(FIRST, PAGE_SIZE - 2 * HEADER, true)];
      OneFree(blocks);
    }

    /** allocation_dll_insert */
    method DllInsert(a: u64, b: u64)
      requires mem.Ready() && InHeap(mem.Words(), a as int + 16) && InHeap(mem.Words(), At(mem.Words(), a as int + 16) as int + 8)
      requires InHeap(mem.Words(), b as int + 8) && InHeap(mem.Words(), b as int + 16)
      modifies mem.ram.words
      ensures mem.Ready() && mem.Words() == if a == b then old(mem.Words()) else InsertAfter(old(mem.Words()), a, b)
    {
      hide At, Put, InHeap, Mapped, Backed, View, FramesOnly;
      if a == b {
        return;
      }
      ghost var w := mem.Words();
      var n := mem.Load(a as int + 16);
      mem.Store(b as int + 16, n);
      ghost var w1 := mem.Words();
      InHeapSame(w, w1);
      mem.Store(b as int + 8, a);
      ghost var w2 := mem.Words();
      InHeapSame(w, w2);
      mem.Store(a as int + 16, b);
      ghost var w3 := mem.Words();
      InHeapSame(w, w3);
      AtPut(w, b as int + 16, n, b as int + 16);
      AtPut(w1, b as int + 8, a, b as int + 16);
      AtPut(w2, a as int + 16, b, b as int + 16);
      var next := mem.Load(b as int + 16);
      mem.Store(next as int + 8, b);
    }

    /** allocation_dll_delete */
    method DllDelete(a: u64)
      requires mem.Ready() && InHeap(mem.Words(), a as int + 8) && InHeap(mem.Words(), a as int + 16)
      requires InHeap(mem.Words(), At(mem.Words(), a as int + 16) as int + 8)
      requires InHeap(mem.Words(), At(mem.Words(), a as int + 8) as int + 16)
      requires At(mem.Words(), a as int + 16) as int != a as int + 8
      modifies mem.ram.words
      ensures mem.Ready() && mem.Words() == if At(old(mem.Words()), a as int + 16) == a then old(mem.Words())
                                            else Unlink(old(mem.Words()), a)
    {
      hide At, Put, InHeap, Mapped, Backed, View, FramesOnly;
      ghost var w := mem.Words();
      var next := mem.Load(a as int + 16);
      if next == a {
        return;
      }
      var prev := mem.Load(a as int + 8);
      mem.Store(next as int + 8, prev);
      ghost var w1 := mem.Words();
      InHeapSame(w, w1);
      AtPut(w, next as int + 8, prev, a as int + 8);
      AtPut(w, next as int + 8, prev, a as int + 16);
      prev := mem.Load(a as int + 8);
      next := mem.Load(a as int + 16);
      mem.Store(prev as int + 16, next);
    }

    /**
     * The end of common_alloc: hand out the free block p, cut down to `bytes` when what is left is room for another
     * header.
     */
    method HandOut(p: u64, bytes: nat, ghost a: seq<Block>, ghost x: Block, ghost b: seq<Block>)
      returns (ghost taken: Block)
      requires mem.Ready() && Heap(mem.Words(), blocks, mem.brk) && blocks == a + [x] + b
      requires x.free && p as int == x.at && x.size >= bytes && bytes % 8 == 0
      requires NoneAdjacent(a) && NoneAdjacent(b) && (b != [] ==> !b[0].free)
      modifies this`blocks, mem.ram.words
      ensures Valid() && !taken.free && taken.at == x.at && taken.size == if x.size >= bytes + HEADER then bytes else x.size
      ensures At(mem.Words(), p as int) as int == taken.size
      ensures Live(blocks) == Live(a) + [taken] + Live(b) && taken in blocks
      ensures LiveKept(old(mem.Words()), mem.Words(), old(blocks))
    {
      hide At, Put, InHeap, Mapped, Backed, View, FramesOnly, Heap, NoneAdjacent, Live, InsertAfter, Unlink, Nodes, LiveKept, Tiles;
      ghost var w, brk := mem.Words(), mem.brk;
      HandOutCells(w, a, x, b, brk, bytes);
      var size := mem.Load(p as int);
      if size as int >= bytes + HEADER {
        var q, rest := p as int + HEADER + bytes, size as int - bytes - HEADER;
        mem.Store(q, rest);
        ghost var w1 := mem.Words();
        InHeapSame(w, w1);
        mem.Store(p as int, bytes);
        ghost var w2 := mem.Words();
        InHeapSame(w, w2);
        SplitBlock(w, a, x, b, brk, p, q, bytes, rest);
        SplitCells(w, a, x, b, brk, p, q, bytes, rest);
        DllInsert(p, q);
        DllDelete(p);
        taken := Block(p as int, bytes, false);
        ghost var left := Block(q, rest, true);
        assert [taken, left] == [taken] + [left];
        TakenApart(a, taken, [left], b);
        LiveAround(a, taken, [left], b);
        blocks := a + [taken, left] + b;
      } else {
        TakeBlock(w, a, x, b, brk, p);
        TakeCells(w, a, x, b, brk, p);
        DllDelete(p);
        taken := x.(free := false);
        assert [taken] + [] == [taken];
        TakenApart(a, taken, [], b);
        LiveAround(a, taken, [], b);
        blocks := a + [taken] + b;
      }
      SizeOf(mem.Words(), blocks, brk, taken);
    }

    /** The search of common_alloc: the first free block of at least `bytes`, or kmalloc_head. */
    method FirstFit(bytes: nat) returns (p: u64, ghost i: nat)
      requires Valid()
      ensures p as int == HEAP_BASE ==> !Fits(blocks, bytes)
      ensures p as int != HEAP_BASE ==>
        && 0 < i < |Nodes(blocks)| && p as int == Nodes(blocks)[i]
        && At(mem.Words(), p as int) as int >= bytes && NoFitBefore(blocks, bytes, p as int)
    {
      hide At, Put, InHeap, Mapped, Backed, View, FramesOnly, Heap, NoneAdjacent, Nodes, NoFitBefore, Fits;
      ghost var w, brk := mem.Words(), mem.brk;
      NodeFacts(w, blocks, brk, 0);
      p := mem.Load(HEAP_BASE + 16);
      i := 1;
      while p as int != HEAP_BASE
        invariant 0 < i <= |Nodes(blocks)|
        invariant p as int == if i < |Nodes(blocks)| then Nodes(blocks)[i] else HEAP_BASE
        invariant forall j :: 0 < j < i ==> At(w, Nodes(blocks)[j]) as int < bytes
        decreases |Nodes(blocks)| - i
      {
        NodeFacts(w, blocks, brk, i);
        var size := mem.Load(p as int);
        if size as int >= bytes {
          NodesTooSmall(w, blocks, brk, i, bytes, p as int);
          return;
        }
        p := mem.Load(p as int + 16);
        i := i + 1;
      }
      if i < |Nodes(blocks)| { NodeFacts(w, blocks, brk, i); }
      NodesTooSmall(w, blocks, brk, i, bytes, brk);
      NoneFitsHere(w, blocks, brk, bytes);
    }

    /** The growth of common_alloc: new pages as one free block at the end of the list. */
    method GrowFor(bytes: nat) returns (got: bool, p: u64, ghost x: Block)
      requires Valid() && mem.brk + PagesToAlloc(bytes) * PAGE_SIZE <= VIRTUAL_LIMIT && mem.RoomToGrow(PagesToAlloc(bytes))
      modifies this`blocks, mem, mem.ram.words, mem.ram.book
      ensures got <==> exists k: nat :: LowestRun(old(mem.ram.State()), mem.ram.total, PagesToAlloc(bytes), k)
      ensures !got ==> Valid() && mem.Words() == old(mem.Words()) && mem.brk == old(mem.brk) && blocks == old(blocks)
      ensures got ==>
        && mem.Ready() && Heap(mem.Words(), blocks, mem.brk) && mem.brk == old(mem.brk) + PagesToAlloc(bytes) * PAGE_SIZE
        && p as int == old(mem.brk) && x == Block(p as int, PagesToAlloc(bytes) * PAGE_SIZE - HEADER, true)
        && blocks == old(blocks) + [x] && LiveKept(old(mem.Words()), mem.Words(), old(blocks))
    {
      hide At, Put, InHeap, Mapped, Backed, View, FramesOnly, Heap, NoneAdjacent, Nodes, FreePages, LowestRun, Missing, PathsFor,
        PathsOf, InsertAfter, Zeros, Tiles, LiveKept;
      ghost var w, brk := mem.Words(), mem.brk;
      var pages := PagesToAlloc(bytes);
      p := mem.brk;
      ghost var i;
      got, i := mem.Grow(pages);
      x := Block(p as int, pages * PAGE_SIZE - HEADER, true);
      if !got {
        return;
      }
      ghost var w0, n := mem.Words(), pages * PAGE_WORDS;
      GrowCells(w, blocks, brk, n, p, x.size);
      mem.Store(p as int, pages * PAGE_SIZE - HEADER);
      var last := mem.Load(HEAP_BASE + 8);
      AddBlock(w, blocks, brk, n, p, last, pages * PAGE_SIZE - HEADER);
      DllInsert(last, p);
      blocks := blocks + [x];
    }

    static lemma NextCell(at: nat, end: nat)
      requires at % 8 == 0 && end % 8 == 0 && at < end
      ensures at + 8 <= end && (at + 8) % 8 == 0
    {
    }

    /** memset(p + 1, 0, p->size) over a block just handed out. */
    method ZeroFill(p: u64, ghost c: Block)
      requires Valid() && c in blocks && !c.free && c.at == p as int
      modifies mem.ram.words
      ensures Valid()
      ensures ZeroedUpTo(old(mem.Words()), mem.Words(), c.at + HEADER, EndOf(c))
    {
      hide At, Put, InHeap, Mapped, Backed, View, FramesOnly, Heap, NoneAdjacent, Nodes, Tiles, ZeroedUpTo,
        KernelMemory.Ready;
      ghost var w, brk := mem.Words(), mem.brk;
      PayloadCells(w, blocks, brk, c);
      ZeroNone(w, c.at + HEADER);
      var size := mem.Load(p as int);
      var at := p as int + HEADER;
      while at < p as int + HEADER + size as int
        invariant c.at + HEADER <= at <= EndOf(c) && at % 8 == 0
        invariant mem.Ready() && Heap(mem.Words(), blocks, brk)
        invariant ZeroedUpTo(w, mem.Words(), c.at + HEADER, at)
      {
        ghost var w1 := mem.Words();
        PayloadPut(w1, blocks, brk, c, at, 0);
        mem.Store(at, 0);
        ZeroStep(w, w1, c.at + HEADER, at);
        NextCell(at, EndOf(c));
        at := at + 8;
      }
    }

    /**
     * common_alloc, behind kmalloc, kzalloc (zero) and kcalloc (zero, contiguous): the payload address of a newly live
     * block, or 0 when the heap would have to grow and no run of pages is free.
     */
    method CommonAlloc(bytes: nat, zero: bool, contiguous: bool) returns (address: nat, ghost taken: Block, ghost i: nat)
      requires Valid() && bytes < 0x7fff_e000
      requires contiguous || !Fits(blocks, Rounded(bytes)) ==>
        mem.brk + PagesToAlloc(Rounded(bytes)) * PAGE_SIZE <= VIRTUAL_LIMIT && mem.RoomToGrow(PagesToAlloc(Rounded(bytes)))
      modifies this`blocks, mem, mem.ram.words, mem.ram.book
      ensures Valid()
      ensures address == 0 <==>
        && (contiguous || forall c :: c in old(blocks) && c.free ==> c.size < Rounded(bytes))
        && forall k: nat :: k < mem.ram.total / 10 ==>
             !FreeRun(old(mem.ram.State()), mem.ram.total, k, PagesToAlloc(Rounded(bytes)))
      ensures address == 0 ==> mem.Words() == old(mem.Words()) && mem.brk == old(mem.brk) && blocks == old(blocks)
      ensures address != 0 ==>
        && taken in blocks && !taken.free && address == taken.at + HEADER
        && Rounded(bytes) <= taken.size < Rounded(bytes) + HEADER
        && i <= |old(Live(blocks))| && Live(blocks) == old(Live(blocks))[..i] + [taken] + old(Live(blocks))[i..]
        && (zero ==> ZeroPayload(mem.Words(), taken))
      ensures address != 0 && !contiguous && old(Fits(blocks, Rounded(bytes))) ==>
        && mem.brk == old(mem.brk) && FirstFitting(old(blocks), Rounded(bytes), taken.at)
        // of the free blocks that are large enough, the lowest
        && (forall c :: c in old(blocks) && c.free && c.size >= Rounded(bytes) ==> taken.at <= c.at)
        && (exists c :: c in old(blocks) && c.free && c.size >= Rounded(bytes) && c.at == taken.at)
      ensures address != 0 && (contiguous || !old(Fits(blocks, Rounded(bytes)))) ==>
        taken.at == old(mem.brk) && mem.brk == old(mem.brk) + PagesToAlloc(Rounded(bytes)) * PAGE_SIZE
      ensures LiveKept(old(mem.Words()), mem.Words(), old(blocks))
    {
      hide At, Put, InHeap, Mapped, Backed, View, FramesOnly, Heap, NoneAdjacent, Nodes, FreePages, LowestRun, Missing, PathsFor,
        PathsOf, InsertAfter, Zeros, Tiles, LiveKept, Live, Fits, NoFitBefore, ZeroPayload, FirstFitting, Rounded, PagesToAlloc, FreeRun;
      ghost var w0, blocks0, brk0 := mem.Words(), blocks, mem.brk;
      var wanted := Rounded(bytes);
      FitsIs(blocks, wanted);
      SomeRun(mem.ram.State(), mem.ram.total, PagesToAlloc(wanted));
      var p;
      p, i := FirstFit(wanted);
      ghost var a, x, b;
      if p as int == HEAP_BASE || contiguous {
        var got;
        got, p, x := GrowFor(wanted);
        if !got {
          KeptHere(w0, blocks0);
          return 0, Block(0, 0, false), 0;
        }
        a, b := blocks0, [];
        GrownApart(blocks0, x);
      } else {
        ghost var k := NodeBlock(w0, blocks0, brk0, i);
        a, x, b := blocks0[..k], blocks0[k], blocks0[k + 1..];
        FittingIs(blocks0, x, wanted);
        LowestFit(blocks0, wanted, x.at);
        SplitApart(a, x, b);
        KeptHere(w0, blocks0);
      }
      ghost var w1, blocks1, brk1 := mem.Words(), blocks, mem.brk;
      taken := HandOut(p, wanted, a, x, b);
      LiveOf(blocks0, a, x, b);
      i := |Live(a)|;
      KeptThrough(w0, w1, mem.Words(), blocks0, blocks1);
      if zero {
        ghost var w2 := mem.Words();
        ZeroFill(p, taken);
        KeptOutside(w0, w2, mem.Words(), blocks0, w1, blocks1, brk1, x, taken);
      }
      address := p as int + HEADER;
    }

    /** coalesce_free_list: free neighbours become one; nothing live moves or changes. */
    method CoalesceFreeList()
      requires mem.Ready() && Heap(mem.Words(), blocks, mem.brk)
      modifies this`blocks, mem.ram.words
      ensures Valid() && Live(blocks) == old(Live(blocks))
      ensures LiveKept(old(mem.Words()), mem.Words(), old(blocks))
    {
      hide At, Put, InHeap, Mapped, Backed, View, FramesOnly, Heap, NoneAdjacent, Nodes, Tiles, LiveKept, Live, Settled, Unlink, Next;
      ghost var w0, blocks0, brk := mem.Words(), blocks, mem.brk;
      NodeFacts(w0, blocks, brk, 0);
      KeptHere(w0, blocks0);
      SettledFirst(w0, blocks, brk);
      NextNode(w0, blocks, brk, 0);
      var p := mem.Load(HEAP_BASE + 16);
      ghost var i := 1;
      while p as int != HEAP_BASE
        invariant 0 < i <= |Nodes(blocks)|
        invariant p as int == if i < |Nodes(blocks)| then Nodes(blocks)[i] else HEAP_BASE
        invariant mem.Ready() && Heap(mem.Words(), blocks, brk)
        invariant Settled(blocks, if i < |Nodes(blocks)| then Nodes(blocks)[i] else brk)
        invariant Live(blocks) == Live(blocks0) && LiveKept(w0, mem.Words(), blocks0)
        invariant forall c :: c in blocks0 && !c.free ==> c in blocks
        decreases |Nodes(blocks)| - i
      {
        ghost var n := |Nodes(blocks)|;
        var next;
        next := MergeFollowing(p, i, w0, blocks0);
        p := next;
        i := i + 1;
      }
      if i < |Nodes(blocks)| { NodeFacts(mem.Words(), blocks, brk, i); }
      HeapTiles(mem.Words(), blocks, brk);
      SettledAll(blocks, brk);
    }

    /** p swallows the free block that starts where it ends. */
    method MergeOne(p: u64, size: u64, next: u64, ghost i: nat, ghost k: nat, ghost w0: seq<u64>, ghost blocks0: seq<Block>)
      requires mem.Ready() && Heap(mem.Words(), blocks, mem.brk) && 0 < i < |Nodes(blocks)| && p as int == Nodes(blocks)[i]
      requires k < |blocks| && blocks[k].free && blocks[k].at == p as int && blocks[k].size == size as int
      requires Nodes(blocks[..k]) == Nodes(blocks)[..i] && next as int == Next(Nodes(blocks), i)
      requires p as int + size as int + HEADER == next as int
      requires Settled(blocks, p as int) && LiveKept(w0, mem.Words(), blocks0)
      requires forall c :: c in blocks0 && !c.free ==> c in blocks
      modifies this`blocks, mem.ram.words
      ensures mem.Ready() && Heap(mem.Words(), blocks, mem.brk) && |blocks| < old(|blocks|)
      ensures i < |Nodes(blocks)| <= old(|Nodes(blocks)|) && p as int == Nodes(blocks)[i]
      ensures k < |blocks| && blocks[k].free && blocks[k].at == p as int && Nodes(blocks[..k]) == Nodes(blocks)[..i]
      ensures Settled(blocks, p as int) && Live(blocks) == old(Live(blocks)) && LiveKept(w0, mem.Words(), blocks0)
      ensures forall c :: c in blocks0 && !c.free ==> c in blocks
    {
      hide At, Put, InHeap, Mapped, Backed, View, FramesOnly, Heap, NoneAdjacent, Nodes, Tiles, LiveKept, Live, Settled, Unlink, Next;
      ghost var brk := mem.brk;
      ghost var w, a, x := mem.Words(), blocks[..k], blocks[k];
      Touching(w, blocks, brk, i, k);
      ghost var y, b := blocks[k + 1], blocks[k + 2..];
      NodeFacts(w, blocks, brk, i);
      NodeFacts(w, blocks, brk, i + 1);
      NodeSize(w, blocks, brk, y);
      NextNode(w, blocks, brk, i);
      MergeFits(w, a, x, y, b, brk);
      var more := mem.Load(next as int);
      mem.Store(p as int, (size as int + (HEADER + more as int)));
      ghost var merged := Block(p as int, x.size + HEADER + y.size, true);
      MergeCells(w, a, x, y, b, brk, p, next, merged.size);
      MergeBlocks(w, a, x, y, b, brk, p, next, merged.size);
      DllDelete(next);
      HeapTiles(w, blocks, brk);
      SettledMerge(a, x, y, b, merged, brk);
      KeptThroughLive(w0, w, mem.Words(), blocks0, blocks);
      NodesMerged(a, x, y, b, merged);
      blocks := a + [merged] + b;
      assert blocks[..k] == a;
    }

    /** The inner loop of coalesce_free_list: p swallows every free block that starts where it ends. */
    method MergeFollowing(p: u64, ghost i: nat, ghost w0: seq<u64>, ghost blocks0: seq<Block>) returns (next: u64)
      requires mem.Ready() && Heap(mem.Words(), blocks, mem.brk) && 0 < i < |Nodes(blocks)| && p as int == Nodes(blocks)[i]
      requires Settled(blocks, p as int) && LiveKept(w0, mem.Words(), blocks0)
      requires forall c :: c in blocks0 && !c.free ==> c in blocks
      modifies this`blocks, mem.ram.words
      ensures mem.Ready() && Heap(mem.Words(), blocks, mem.brk) && i < |Nodes(blocks)| <= old(|Nodes(blocks)|)
      ensures next as int == if i + 1 < |Nodes(blocks)| then Nodes(blocks)[i + 1] else HEAP_BASE
      ensures Settled(blocks, if i + 1 < |Nodes(blocks)| then Nodes(blocks)[i + 1] else mem.brk)
      ensures Live(blocks) == old(Live(blocks)) && LiveKept(w0, mem.Words(), blocks0)
      ensures forall c :: c in blocks0 && !c.free ==> c in blocks
    {
      hide At, Put, InHeap, Mapped, Backed, View, FramesOnly, Heap, NoneAdjacent, Nodes, Tiles, LiveKept, Live, Settled, Unlink, Next;
      ghost var brk := mem.brk;
      NodeFacts(mem.Words(), blocks, brk, i);
      ghost var k := NodeBlock(mem.Words(), blocks, brk, i);
      Touching(mem.Words(), blocks, brk, i, k);
      var size := mem.Load(p as int);
      next := mem.Load(p as int + 16);
      while p as int + size as int + HEADER == next as int
        invariant 0 < i < |Nodes(blocks)| <= old(|Nodes(blocks)|) && p as int == Nodes(blocks)[i]
        invariant mem.Ready() && Heap(mem.Words(), blocks, brk)
        invariant k < |blocks| && blocks[k].free && blocks[k].at == p as int && blocks[k].size == size as int
        invariant Nodes(blocks[..k]) == Nodes(blocks)[..i] && next as int == Next(Nodes(blocks), i)
        invariant Settled(blocks, p as int) && Live(blocks) == old(Live(blocks)) && LiveKept(w0, mem.Words(), blocks0)
        invariant forall c :: c in blocks0 && !c.free ==> c in blocks
        decreases |blocks|
      {
        MergeOne(p, size, next, i, k, w0, blocks0);
        NodeFacts(mem.Words(), blocks, brk, i);
        NodeSize(mem.Words(), blocks, brk, blocks[k]);
        size := mem.Load(p as int);
        next := mem.Load(p as int + 16);
      }
      NextNode(mem.Words(), blocks, brk, i);
      SettledNext(mem.Words(), blocks, brk, i, k);
    }

    /** heap_shrink: while a free block of a page or more ends the heap, give the heap's last page back. */
    method HeapShrink()
      requires Valid()
      modifies this`blocks, mem`brk, mem`frames, mem`tables, mem.ram.words, mem.ram.book
      ensures Valid() && Live(blocks) == old(Live(blocks)) && LiveKept(old(mem.Words()), mem.Words(), old(blocks))
      ensures Tight(blocks, mem.brk)
      ensures FramesGone(old(mem.ram.State()), mem.ram.State(), old(mem.frames), mem.frames)
      ensures mem.brk <= old(mem.brk) && mem.tables.Keys == old(mem.tables.Keys)
    {
      hide At, Put, InHeap, Mapped, Backed, View, FramesOnly, Heap, NoneAdjacent, Nodes, Tiles, LiveKept, Live, FramesGone, Tight, RunsOf;
      ghost var w0, blocks0, r0, frames0 := mem.Words(), blocks, mem.ram.State(), mem.frames;
      KeptHere(w0, blocks0);
      NoneGone(r0, frames0);
      NodeFacts(w0, blocks, mem.brk, 0);
      PrevNode(blocks);
      var last := mem.Load(HEAP_BASE + 8);
      ghost var i := |Nodes(blocks)| - 1;
      NodeFacts(w0, blocks, mem.brk, i);
      var size := mem.Load(last as int);
      while last as int + HEADER + size as int == mem.brk && size as int >= PAGE_SIZE
        invariant Valid() && i == |Nodes(blocks)| - 1 && last as int == Nodes(blocks)[i] && size == At(mem.Words(), last as int)
        invariant Live(blocks) == Live(blocks0) && LiveKept(w0, mem.Words(), blocks0)
        invariant forall c :: c in blocks0 && !c.free ==> c in blocks
        invariant FramesGone(r0, mem.ram.State(), frames0, mem.frames)
        invariant mem.brk <= old(mem.brk) && mem.tables.Keys == old(mem.tables.Keys)
        decreases size
      {
        ghost var w1, blocks1, r1, frames1 := mem.Words(), blocks, mem.ram.State(), mem.frames;
        ShrinkOne(last, size, i);
        size := size as int - PAGE_SIZE;
        KeptThroughLive(w0, w1, mem.Words(), blocks0, blocks1);
        GoneStep(r0, r1, mem.ram.State(), frames0, frames1, mem.frames);
      }
      TightHere(mem.Words(), blocks, mem.brk, i, size);
    }

    /** One page less at the end, in the last free block. */
    method ShrinkOne(last: u64, size: u64, ghost i: nat)
      requires Valid() && i == |Nodes(blocks)| - 1 && last as int == Nodes(blocks)[i] && size == At(mem.Words(), last as int)
      requires last as int + HEADER + size as int == mem.brk && size as int >= PAGE_SIZE
      modifies this`blocks, mem`brk, mem`frames, mem`tables, mem.ram.words, mem.ram.book
      ensures Valid() && mem.brk == old(mem.brk) - PAGE_SIZE && mem.tables.Keys == old(mem.tables.Keys)
      ensures i == |Nodes(blocks)| - 1 && last as int == Nodes(blocks)[i]
      ensures At(mem.Words(), last as int) as int == size as int - PAGE_SIZE
      ensures Live(blocks) == old(Live(blocks)) && LiveKept(old(mem.Words()), mem.Words(), old(blocks))
      ensures forall c :: c in old(blocks) && !c.free ==> c in blocks
      ensures |old(mem.frames)| > 0 && mem.frames == old(mem.frames)[..|old(mem.frames)| - 1]
      ensures mem.ram.State().taken == old(mem.ram.State().taken) - {old(mem.frames)[|old(mem.frames)| - 1]}
    {
      hide At, Put, InHeap, Mapped, Backed, View, FramesOnly, Heap, NoneAdjacent, Nodes, Tiles, LiveKept, Live, RunsOf;
      ghost var w, brk := mem.Words(), mem.brk;
      NodeFacts(w, blocks, brk, i);
      ghost var k := NodeBlock(w, blocks, brk, i);
      LastBlock(w, blocks, brk, k);
      ghost var a, x := blocks[..k], blocks[k];
      ghost var cut := x.(size := x.size - PAGE_SIZE);
      mem.Store(last as int, size as int - PAGE_SIZE);
      CutBlock(w, a, x, brk, last, x.size - PAGE_SIZE);
      mem.ShrinkPage();
      KeptCut(w, mem.Words(), a, x);
      CutApart(a, x, cut);
      blocks := a + [cut];
      NodeSize(mem.Words(), blocks, mem.brk, cut);
    }

    /**
     * kfree: the block behind a live payload address is free again, merged with its free neighbours, and whole free
     * pages at the end go back to the page allocator.
     */
    method KFree(address: nat, ghost x: Block, ghost k: nat)
      requires Valid()
      requires address != 0 ==> k < |blocks| && blocks[k] == x && !x.free && address == x.at + HEADER
      modifies this, mem`brk, mem`frames, mem`tables, mem.ram.words, mem.ram.book
      ensures Valid()
      ensures address == 0 ==> blocks == old(blocks) && mem.Words() == old(mem.Words()) && mem.brk == old(mem.brk)
      ensures address != 0 ==>
        && Live(blocks) == old(Live(blocks[..k]) + Live(blocks[k + 1..]))
        && old(Live(blocks)) == old(Live(blocks[..k])) + [x] + old(Live(blocks[k + 1..]))
        && LiveKept(old(mem.Words()), mem.Words(), old(blocks[..k] + blocks[k + 1..]))
        && Tight(blocks, mem.brk)
      ensures FramesGone(old(mem.ram.State()), mem.ram.State(), old(mem.frames), mem.frames) && mem.brk <= old(mem.brk)
    {
      hide At, Put, InHeap, Mapped, Backed, View, FramesOnly, Heap, NoneAdjacent, Nodes, Tiles, LiveKept, Live, RunsOf, FramesGone,
        Tight, InsertAfter, Next;
      NoneGone(mem.ram.State(), mem.frames);
      if address == 0 {
        return;
      }
      ghost var w, brk, a, b, blocks0 := mem.Words(), mem.brk, blocks[..k], blocks[k + 1..], blocks;
      assert blocks == a + [x] + b;
      BlockFits(w, blocks, brk, x);
      var q: u64 := address - HEADER;
      var p := FindBefore(q, a, x, b);
      FreeCells(w, a, x, b, brk, p, q);
      FreeBlock(w, a, x, b, brk, p, q);
      DllInsert(p, q);
      FreedLive(a, x, b);
      blocks := a + [x.(free := true)] + b;
      numberOfFrees := (numberOfFrees + 1) % 0x1_0000_0000;
      ghost var w1, blocks1 := mem.Words(), blocks;
      if numberOfFrees % COALESCE_EACH == 0 {
        CoalesceFreeList();
      }
      ghost var w2, blocks2 := mem.Words(), blocks;
      LiveMembers(blocks1, blocks2);
      KeptThroughLive(w, w1, w2, a + b, blocks1);
      if numberOfFrees % SHRINK_HEAP_EACH == 0 {
        HeapShrink();
      }
      KeptThroughLive(w, w2, mem.Words(), a + b, blocks2);
    }

    /** The search of kfree: the last free block before q, or kmalloc_head. */
    method FindBefore(q: u64, ghost a: seq<Block>, ghost x: Block, ghost b: seq<Block>) returns (p: u64)
      requires Valid() && blocks == a + [x] + b && !x.free && q as int == x.at
      ensures p as int == Nodes(a)[|Nodes(a)| - 1]
    {
      hide At, Put, InHeap, Mapped, Backed, View, FramesOnly, Heap, NoneAdjacent, Nodes, Tiles, Next;
      ghost var w, brk, n := mem.Words(), mem.brk, |Nodes(a)|;
      NodesBefore(w, a, x, b, brk);
      NodeFacts(w, blocks, brk, 0);
      NextNode(w, blocks, brk, 0);
      p := HEAP_BASE;
      ghost var j := 0;
      var next := mem.Load(p as int + 16);
      while next < q && next as int != HEAP_BASE
        invariant 0 <= j < n && p as int == Nodes(blocks)[j] == Nodes(a)[j]
        invariant next as int == if j + 1 < |Nodes(blocks)| then Nodes(blocks)[j + 1] else HEAP_BASE
        decreases n - j
      {
        p := next;
        j := j + 1;
        NodeFacts(w, blocks, brk, j);
        NextNode(w, blocks, brk, j);
        next := mem.Load(p as int + 16);
      }
      if j + 1 < |Nodes(blocks)| { NodeFacts(w, blocks, brk, j + 1); }
    }
  }

  const COALESCE_EACH: nat := 1
  const SHRINK_HEAP_EACH: nat := 1

  /** No free block of a page or more ends the heap. */
  ghost predicate Tight(blocks: seq<Block>, brk: nat)
  {
    forall c :: c in blocks && c.free && EndOf(c) == brk ==> c.size < PAGE_SIZE
  }

  /** The heap kept its first frames; the others, and no other page, were freed. */
  ghost predicate FramesGone(r0: Runs, r: Runs, frames0: seq<nat>, frames: seq<nat>)
  {
    && |frames| <= |frames0| && frames == frames0[..|frames|]
    && r.taken == r0.taken - (set f | f in frames0[|frames|..])
  }

  /** The lowest free block that is large enough starts here. */
  ghost predicate FirstFitting(blocks: seq<Block>, bytes: nat, at: nat)
  {
    NoFitBefore(blocks, bytes, at) && exists c :: c in blocks && c.free && c.at == at && c.size >= bytes
  }

  ghost predicate ZeroPayload(w: seq<u64>, c: Block)
  {
    forall y: nat :: c.at + HEADER <= y < EndOf(c) ==> At(w, y) == 0
  }

  lemma SizeOf(w: seq<u64>, blocks: seq<Block>, brk: nat, c: Block)
    requires Heap(w, blocks, brk) && c in blocks
    ensures At(w, c.at) as int == c.size
  {
    hide Tiles, Linked, At;
  }

  /** The node of a free block among others. */
  lemma BlockNode(w: seq<u64>, a: seq<Block>, x: Block, b: seq<Block>, brk: nat)
    requires Heap(w, a + [x] + b, brk) && x.free
    ensures |Nodes(a)| > 0 && |Nodes(a + [x] + b)| == |Nodes(a)| + 1 + |FreeAt(b)|
    ensures Nodes(a + [x] + b)[|Nodes(a)|] == x.at
  {
    hide FreeAt;
    NodesAround(a, x, b);
  }

  lemma HandOutCells(w: seq<u64>, a: seq<Block>, x: Block, b: seq<Block>, brk: nat, bytes: nat)
    requires Heap(w, a + [x] + b, brk) && x.free && bytes % 8 == 0
    ensures InHeap(w, x.at) && At(w, x.at) as int == x.size && x.at % 8 == 0 && x.size % 8 == 0 && EndOf(x) <= brk
    ensures x.size >= bytes + HEADER ==> InHeap(w, x.at + HEADER + bytes)
  {
    hide Tiles, Linked, At, Nodes, InHeap;
    var blocks := a + [x] + b;
    assert x in blocks;
    Disjoint(blocks, brk, x, x);
    CellIn(w, x.at);
    if x.size >= bytes + HEADER { CellIn(w, x.at + HEADER + bytes); }
  }

  lemma TakeCells(w: seq<u64>, a: seq<Block>, x: Block, b: seq<Block>, brk: nat, p: u64)
    requires Heap(w, a + [x] + b, brk) && x.free && p as int == x.at
    ensures InHeap(w, p as int + 8) && InHeap(w, p as int + 16)
    ensures InHeap(w, At(w, p as int + 16) as int + 8) && InHeap(w, At(w, p as int + 8) as int + 16)
    ensures At(w, p as int + 16) as int != p as int + 8
  {
    hide Nodes, FreeAt, At, InHeap, Spaced, Tiles, Linked, Headers;
    BlockNode(w, a, x, b, brk);
    HeapSpaced(w, a + [x] + b, brk);
    LinkedCells(w, Nodes(a + [x] + b), |Nodes(a)|);
  }

  lemma NoneFitsHere(w: seq<u64>, blocks: seq<Block>, brk: nat, bytes: nat)
    requires Heap(w, blocks, brk) && NoFitBefore(blocks, bytes, brk)
    ensures !Fits(blocks, bytes)
  {
    hide Tiles, At, Linked, Headers;
    NoneFits(blocks, brk, bytes);
  }

  lemma Unaligned(w: seq<u64>, y: nat)
    ensures y % 8 != 0 ==> At(w, y) == 0
  {
    if y >= HEAP_BASE { assert (y - HEAP_BASE) % 8 == y % 8; }
  }

  lemma PayloadCells(w: seq<u64>, blocks: seq<Block>, brk: nat, c: Block)
    requires Heap(w, blocks, brk) && c in blocks
    ensures InHeap(w, c.at) && At(w, c.at) as int == c.size && EndOf(c) <= brk && c.at % 8 == 0 && c.size % 8 == 0
  {
    hide Tiles, At, InHeap, Linked;
    Disjoint(blocks, brk, c, c);
    CellIn(w, c.at);
  }

  /** The cells a growth writes. */
  lemma GrowCells(w: seq<u64>, blocks: seq<Block>, brk: nat, n: nat, p: u64, size: nat)
    requires Heap(w, blocks, brk) && p as int == brk && size + HEADER == 8 * n < 0x1_0000_0000_0000_0000
    ensures var w1 := Put(w + Zeros(n), p as int, size);
            && InHeap(w + Zeros(n), p as int) && InHeap(w1, HEAP_BASE + 8)
            && At(w1, HEAP_BASE + 8) as int == Nodes(blocks)[|Nodes(blocks)| - 1] < brk
            && InHeap(w1, At(w1, HEAP_BASE + 8) as int + 16)
            && InHeap(w1, At(w1, At(w1, HEAP_BASE + 8) as int + 16) as int + 8)
            && InHeap(w1, p as int + 8) && InHeap(w1, p as int + 16)
  {
    hide Tiles, At, InHeap, Linked, LinkedAt, FreeAt, Put, Spaced, Nodes, Next, Prev;
    var z, w0 := Block(p as int, size, true), w + Zeros(n);
    FirstIsAligned(blocks, brk);
    OneTile(z);
    TilesConcat(blocks, [z], FIRST, brk, brk + 8 * n);
    StartOffLinksMore(blocks, z, brk + 8 * n);
    NodesSpaced(blocks, |w|);
    SpacedMore(Nodes(blocks), |w|, |w0|);
    LinkedMore(w, Zeros(n), Nodes(blocks));
    CellIn(w0, p as int);
    LinkedPut(w0, Nodes(blocks), p as int, size);
    var w1 := Put(w0, p as int, size);
    CellIn(w1, p as int + 8);
    CellIn(w1, p as int + 16);
    LinkEnds(w1, Nodes(blocks));
    LastBelow(Nodes(blocks), |w|);
  }

  /** The head's prev is the last node, and the last node's next is the head. */
  lemma LinkEnds(w: seq<u64>, nodes: seq<nat>)
    requires |nodes| > 0 && Linked(w, nodes) && Spaced(nodes, |w|) && nodes[0] == HEAP_BASE
    ensures InHeap(w, HEAP_BASE + 8) && At(w, HEAP_BASE + 8) as int == nodes[|nodes| - 1]
    ensures InHeap(w, nodes[|nodes| - 1] + 16) && At(w, nodes[|nodes| - 1] + 16) as int == HEAP_BASE
  {
    hide At, InHeap, Spaced;
    NodeCells(w, nodes, 0);
    NodeCells(w, nodes, |nodes| - 1);
    assert LinkedAt(w, nodes, 0) && LinkedAt(w, nodes, |nodes| - 1);
  }

  lemma LastBelow(nodes: seq<nat>, words: nat)
    requires Spaced(nodes, words)
    ensures nodes[|nodes| - 1] < HEAP_BASE + 8 * words
  {
  }

  lemma SpacedMore(nodes: seq<nat>, words: nat, more: nat)
    requires Spaced(nodes, words) && words <= more
    ensures Spaced(nodes, more)
  {
  }

  lemma SettledFirst(w: seq<u64>, blocks: seq<Block>, brk: nat)
    requires Heap(w, blocks, brk)
    ensures Settled(blocks, if 1 < |Nodes(blocks)| then Nodes(blocks)[1] else brk)
  {
    hide Tiles, FreeAt, At, Linked, Headers;
    HeapSpaced(w, blocks, brk);
    forall j | 0 < j < |blocks| && blocks[j - 1].free && blocks[j].free
      ensures blocks[j - 1].at >= if 1 < |Nodes(blocks)| then Nodes(blocks)[1] else brk
    {
      var m := FreeIndex(blocks, blocks[j - 1]);
      assert Nodes(blocks)[m + 1] == blocks[j - 1].at;
    }
  }

  lemma HeapTiles(w: seq<u64>, blocks: seq<Block>, brk: nat)
    requires Heap(w, blocks, brk)
    ensures Tiles(blocks, FIRST, brk)
  {
  }

  lemma NodeSize(w: seq<u64>, blocks: seq<Block>, brk: nat, c: Block)
    requires Heap(w, blocks, brk) && c in blocks
    ensures At(w, c.at) as int == c.size && EndOf(c) <= brk
  {
    hide Tiles, At, Linked;
    Disjoint(blocks, brk, c, c);
  }

  lemma KeptThroughLive(w0: seq<u64>, w1: seq<u64>, w: seq<u64>, blocks0: seq<Block>, blocks: seq<Block>)
    requires LiveKept(w0, w1, blocks0) && LiveKept(w1, w, blocks) && forall c :: c in blocks0 && !c.free ==> c in blocks
    ensures LiveKept(w0, w, blocks0)
  {
    hide At;
  }

  lemma NextNode(w: seq<u64>, blocks: seq<Block>, brk: nat, i: nat)
    requires Heap(w, blocks, brk) && i < |Nodes(blocks)|
    ensures Next(Nodes(blocks), i) == if i + 1 < |Nodes(blocks)| then Nodes(blocks)[i + 1] else HEAP_BASE
  {
  }

  lemma NodesMerged(a: seq<Block>, x: Block, y: Block, b: seq<Block>, z: Block)
    requires x.free && y.free && z.free && z.at == x.at
    ensures Nodes(a + [z] + b) == Nodes(a) + [z.at] + FreeAt(b)
    ensures |Nodes(a + [z] + b)| + 1 == |Nodes(a + [x, y] + b)| && Nodes(a + [z] + b)[|Nodes(a)|] == z.at
    ensures Nodes(a + [z] + b)[..|Nodes(a)|] == Nodes(a)
  {
    hide FreeAt, Nodes;
    NodesAround(a, z, b);
    NodesAroundTwo(a, x, y, b);
  }

  lemma MergeFits(w: seq<u64>, a: seq<Block>, x: Block, y: Block, b: seq<Block>, brk: nat)
    requires Heap(w, a + [x, y] + b, brk) && EndOf(x) == y.at
    ensures x.size + HEADER + y.size < brk
  {
    hide Tiles, At, Linked, Headers;
    assert y in a + [x, y] + b && x in a + [x, y] + b;
    Disjoint(a + [x, y] + b, brk, y, x);
  }

  lemma MergeCells(w: seq<u64>, a: seq<Block>, x: Block, y: Block, b: seq<Block>, brk: nat, p: u64, n: u64, size: u64)
    requires Heap(w, a + [x, y] + b, brk) && x.free && y.free && p as int == x.at && n as int == y.at
    ensures var w1 := Put(w, p as int, size);
            && InHeap(w, p as int)
            && InHeap(w1, n as int + 8) && InHeap(w1, n as int + 16)
            && InHeap(w1, At(w1, n as int + 16) as int + 8) && InHeap(w1, At(w1, n as int + 8) as int + 16)
            && At(w1, n as int + 16) as int != n as int + 8
  {
    hide Tiles, At, Linked, FreeAt, Nodes, Put, InHeap, Spaced, OffLinks;
    var blocks := a + [x, y] + b;
    assert x in blocks;
    Disjoint(blocks, brk, x, x);
    CellIn(w, p as int);
    StartOffLinks(blocks, brk, x);
    LinkedPut(w, Nodes(blocks), p as int, size);
    NodesAroundTwo(a, x, y, b);
    HeapSpaced(w, blocks, brk);
    LinkedCells(Put(w, p as int, size), Nodes(blocks), |Nodes(a)| + 1);
  }

  lemma NoneGone(r: Runs, frames: seq<nat>)
    ensures FramesGone(r, r, frames, frames)
  {
  }

  lemma GoneStep(r0: Runs, r1: Runs, r: Runs, frames0: seq<nat>, frames1: seq<nat>, frames: seq<nat>)
    requires FramesGone(r0, r1, frames0, frames1) && |frames1| > 0 && frames == frames1[..|frames1| - 1]
    requires r.taken == r1.taken - {frames1[|frames1| - 1]}
    ensures FramesGone(r0, r, frames0, frames)
  {
    assert frames0[|frames|..] == [frames1[|frames1| - 1]] + frames0[|frames1|..];
    assert (set f | f in frames0[|frames|..]) == {frames1[|frames1| - 1]} + (set f | f in frames0[|frames1|..]);
  }

  lemma PrevNode(blocks: seq<Block>)
    ensures Prev(Nodes(blocks), 0) == Nodes(blocks)[|Nodes(blocks)| - 1]
  {
  }

  lemma LastBlock(w: seq<u64>, blocks: seq<Block>, brk: nat, k: nat)
    requires Heap(w, blocks, brk) && k < |blocks| && EndOf(blocks[k]) == brk
    ensures blocks == blocks[..k] + [blocks[k]]
  {
    hide Tiles, At, Linked, Headers;
    TileOrder(blocks, FIRST, brk);
    assert k + 1 == |blocks| by {
      assert k + 1 < |blocks| ==> EndOf(blocks[k]) <= blocks[k + 1].at;
    }
  }

  lemma KeptCut(w: seq<u64>, w': seq<u64>, a: seq<Block>, x: Block)
    requires LiveKept(w, w', a) && x.free
    ensures LiveKept(w, w', a + [x])
  {
    hide At;
  }

  lemma CutApart(a: seq<Block>, x: Block, y: Block)
    requires NoneAdjacent(a + [x]) && x.free && y.free && x.at == y.at
    ensures NoneAdjacent(a + [y]) && Live(a + [y]) == Live(a + [x]) && Nodes(a + [y]) == Nodes(a + [x])
    ensures |Nodes(a + [y])| == |Nodes(a)| + 1
  {
    hide Live, FreeAt;
    Concat(a, [x]);
    Concat(a, [y]);
    Single(x);
    Single(y);
    var blocks, blocks' := a + [x], a + [y];
    assert forall k :: 0 <= k < |blocks| ==> blocks'[k].free == blocks[k].free;
  }

  lemma TightHere(w: seq<u64>, blocks: seq<Block>, brk: nat, i: nat, size: u64)
    requires Heap(w, blocks, brk) && i == |Nodes(blocks)| - 1 && size == At(w, Nodes(blocks)[i])
    requires !(Nodes(blocks)[i] + HEADER + size as int == brk && size as int >= PAGE_SIZE)
    ensures Tight(blocks, brk)
  {
    hide Tiles, FreeAt, At, Linked;
    HeapSpaced(w, blocks, brk);
    forall c | c in blocks && c.free && EndOf(c) == brk ensures c.size < PAGE_SIZE {
      var m := FreeIndex(blocks, c);
      var k := FreeAtFrom(blocks, i - 1);
      assert Nodes(blocks)[m + 1] == c.at;
      Disjoint(blocks, brk, c, blocks[k]);
    }
  }

  lemma FreedLive(a: seq<Block>, x: Block, b: seq<Block>)
    requires !x.free
    ensures Live(a + [x.(free := true)] + b) == Live(a) + Live(b) && Live(a + [x] + b) == Live(a) + [x] + Live(b)
    ensures forall c :: c in a + b ==> c in a + [x.(free := true)] + b
  {
    hide Live, FreeAt;
    Around(a, x, b);
    Around(a, x.(free := true), b);
    assert Live(a) + [] + Live(b) == Live(a) + Live(b);
  }

  lemma {:induction false} InLive(blocks: seq<Block>, c: Block)
    ensures c in Live(blocks) <==> c in blocks && !c.free
  {
    if blocks != [] {
      InLive(blocks[..|blocks| - 1], c);
      assert blocks == blocks[..|blocks| - 1] + [blocks[|blocks| - 1]];
    }
  }

  lemma LiveMembers(blocks: seq<Block>, blocks': seq<Block>)
    requires Live(blocks) == Live(blocks')
    ensures forall c :: c in blocks && !c.free ==> c in blocks'
  {
    hide Live;
    forall c | c in blocks && !c.free ensures c in blocks' {
      InLive(blocks, c);
      InLive(blocks', c);
    }
  }

  lemma BlockFits(w: seq<u64>, blocks: seq<Block>, brk: nat, x: Block)
    requires Heap(w, blocks, brk) && x in blocks
    ensures EndOf(x) <= brk && x.at >= FIRST
  {
    hide Tiles, At, Linked, Headers;
    Disjoint(blocks, brk, x, x);
  }

  lemma FreeCells(w: seq<u64>, a: seq<Block>, x: Block, b: seq<Block>, brk: nat, p: u64, q: u64)
    requires Heap(w, a + [x] + b, brk) && !x.free && q as int == x.at && p as int == Nodes(a)[|Nodes(a)| - 1]
    ensures p != q && InHeap(w, p as int + 16) && InHeap(w, At(w, p as int + 16) as int + 8)
    ensures InHeap(w, q as int + 8) && InHeap(w, q as int + 16)
  {
    hide Tiles, At, Linked, FreeAt, Nodes, InHeap, Spaced;
    var blocks := a + [x] + b;
    NodesBefore(w, a, x, b, brk);
    HeapSpaced(w, blocks, brk);
    LinkedCells(w, Nodes(blocks), |Nodes(a)| - 1);
    assert x in blocks;
    Disjoint(blocks, brk, x, x);
    CellIn(w, q as int + 8);
    CellIn(w, q as int + 16);
  }
}
