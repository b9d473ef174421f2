/**
 * What the words of the kernel heap mean (kmalloc.h:7-12, kmalloc.c:18-49): blocks with a 24-byte header tile the
 * heap behind the list head, and the free ones form a circular doubly linked list in address order.
 */
module HeapBlocks {
  import opened HeapPages
  import opened Page

  const HEADER: nat := 24           // sizeof(allocation_t)
  const FIRST: nat := HEAP_BASE + HEADER

  /** A header at `at` and `size` bytes of payload behind it. */
  datatype Block = Block(at: nat, size: nat, free: bool)

  function EndOf(b: Block): nat { b.at + HEADER + b.size }

  // ---- tiling -----------------------------------------------------------------------

  /** The blocks cover lo .. hi exactly, in order. */
  ghost predicate Tiles(blocks: seq<Block>, lo: nat, hi: nat)
  {
    if blocks == [] then lo == hi else
    var b := blocks[|blocks| - 1];
    EndOf(b) == hi && b.size % 8 == 0 && Tiles(blocks[..|blocks| - 1], lo, b.at)
  }

  lemma {:induction false} TilesConcat(a: seq<Block>, b: seq<Block>, lo: nat, mid: nat, hi: nat)
    requires Tiles(a, lo, mid)
    ensures Tiles(b, mid, hi) ==> Tiles(a + b, lo, hi)
    decreases |b|
  {
    if b == [] {
      assert a + b == a;
    } else {
      assert (a + b)[..|a + b| - 1] == a + b[..|b| - 1];
      TilesConcat(a, b[..|b| - 1], lo, mid, b[|b| - 1].at);
    }
  }

  lemma {:induction false} TilesSplit(a: seq<Block>, b: seq<Block>, lo: nat, hi: nat) returns (mid: nat)
    requires Tiles(a + b, lo, hi)
    ensures Tiles(a, lo, mid) && Tiles(b, mid, hi)
    ensures b != [] ==> b[0].at == mid
    decreases |b|
  {
    if b == [] {
      assert a + b == a;
      mid := hi;
    } else {
      assert (a + b)[..|a + b| - 1] == a + b[..|b| - 1];
      mid := TilesSplit(a, b[..|b| - 1], lo, b[|b| - 1].at);
    }
  }

  /** The same stretch tiled otherwise. */
  lemma Retiled(a: seq<Block>, x: seq<Block>, y: seq<Block>, b: seq<Block>, lo: nat, hi: nat, from: nat, to: nat)
    requires Tiles(a + x + b, lo, hi) && x != [] && Tiles(x, from, to)
    requires Tiles(y, from, to)
    ensures Tiles(a + y + b, lo, hi)
  {
    hide Tiles;
    var end := TilesSplit(a + x, b, lo, hi);
    var start := TilesSplit(a, x, lo, end);
    TilesStart(x, from, to);
    TilesStart(x, start, end);
    TilesConcat(a, y, lo, start, end);
    TilesConcat(a + y, b, lo, end, hi);
  }

  lemma {:induction false} TilesStart(x: seq<Block>, lo: nat, hi: nat)
    requires Tiles(x, lo, hi) && x != []
    ensures x[0].at == lo && EndOf(x[|x| - 1]) == hi && lo + HEADER <= hi
  {
    if |x| > 1 {
      TilesStart(x[..|x| - 1], lo, x[|x| - 1].at);
    }
  }

  /** Blocks are aligned and lie one after the other. */
  lemma {:induction false} TileOrder(blocks: seq<Block>, lo: nat, hi: nat)
    requires Tiles(blocks, lo, hi) && lo % 8 == 0
    ensures lo <= hi && hi % 8 == 0
    ensures forall k :: 0 <= k < |blocks| ==>
              lo <= blocks[k].at && EndOf(blocks[k]) <= hi && blocks[k].at % 8 == 0 && blocks[k].size % 8 == 0
    ensures forall j, k :: 0 <= j < k < |blocks| ==> EndOf(blocks[j]) <= blocks[k].at
  {
    if blocks != [] {
      TileOrder(blocks[..|blocks| - 1], lo, blocks[|blocks| - 1].at);
    }
  }

  // ---- free and live -----------------------------------------------------------------

  /** The addresses of the free blocks, in order. */
  ghost function FreeAt(blocks: seq<Block>): seq<nat>
  {
    if blocks == [] then [] else
    var b := blocks[|blocks| - 1];
    FreeAt(blocks[..|blocks| - 1]) + if b.free then [b.at] else []
  }

  /** The blocks handed out, in order. */
  ghost function Live(blocks: seq<Block>): seq<Block>
  {
    if blocks == [] then [] else
    var b := blocks[|blocks| - 1];
    Live(blocks[..|blocks| - 1]) + if b.free then [] else [b]
  }

  lemma {:induction false} Concat(a: seq<Block>, b: seq<Block>)
    ensures FreeAt(a + b) == FreeAt(a) + FreeAt(b) && Live(a + b) == Live(a) + Live(b)
    decreases |b|
  {
    if b == [] {
      assert a + b == a;
    } else {
      assert (a + b)[..|a + b| - 1] == a + b[..|b| - 1];
      Concat(a, b[..|b| - 1]);
    }
  }

  lemma Single(x: Block)
    ensures FreeAt([x]) == (if x.free then [x.at] else []) && Live([x]) == (if x.free then [] else [x])
  {
    assert [x][..0] == [];
  }

  /** One block among others. */
  lemma Around(a: seq<Block>, x: Block, b: seq<Block>)
    ensures FreeAt(a + [x] + b) == FreeAt(a) + (if x.free then [x.at] else []) + FreeAt(b)
    ensures Live(a + [x] + b) == Live(a) + (if x.free then [] else [x]) + Live(b)
  {
    hide FreeAt, Live;
    Concat(a + [x], b);
    Concat(a, [x]);
    Single(x);
  }

  lemma {:induction false} FreeAtFrom(blocks: seq<Block>, i: nat) returns (k: nat)
    requires i < |FreeAt(blocks)|
    ensures k < |blocks| && blocks[k].free && blocks[k].at == FreeAt(blocks)[i]
    ensures FreeAt(blocks[..k]) == FreeAt(blocks)[..i]
  {
    var init, b := blocks[..|blocks| - 1], blocks[|blocks| - 1];
    if i < |FreeAt(init)| {
      k := FreeAtFrom(init, i);
      assert init[..k] == blocks[..k];
    } else {
      k := |blocks| - 1;
    }
  }

  lemma {:induction false} LiveFrom(blocks: seq<Block>, x: Block) returns (k: nat)
    requires x in Live(blocks)
    ensures k < |blocks| && blocks[k] == x && !x.free
  {
    var init, b := blocks[..|blocks| - 1], blocks[|blocks| - 1];
    if x in Live(init) {
      k := LiveFrom(init, x);
    } else {
      k := |blocks| - 1;
    }
  }

  ghost predicate NoneAdjacent(blocks: seq<Block>)
  {
    forall k :: 0 < k < |blocks| ==> !(blocks[k - 1].free && blocks[k].free)
  }

  // ---- the list ------------------------------------------------------------------------

  /** kmalloc_head, then the free blocks. */
  ghost function Nodes(blocks: seq<Block>): (nodes: seq<nat>)
    ensures |nodes| > 0 && nodes[0] == HEAP_BASE
  {
    [HEAP_BASE] + FreeAt(blocks)
  }

  ghost function Next(nodes: seq<nat>, i: nat): nat
    requires i < |nodes|
  {
    if i + 1 < |nodes| then nodes[i + 1] else nodes[0]
  }

  ghost function Prev(nodes: seq<nat>, i: nat): nat
    requires i < |nodes|
  {
    if i > 0 then nodes[i - 1] else nodes[|nodes| - 1]
  }

  ghost predicate LinkedAt(w: seq<u64>, nodes: seq<nat>, i: nat)
    requires i < |nodes|
  {
    At(w, nodes[i] + 8) as int == Prev(nodes, i) && At(w, nodes[i] + 16) as int == Next(nodes, i)
  }

  /** prev and next of every node say what the list says. */
  ghost predicate Linked(w: seq<u64>, nodes: seq<nat>)
  {
    forall i :: 0 <= i < |nodes| ==> LinkedAt(w, nodes, i)
  }

  /** Nodes are whole headers inside the heap, in address order. */
  ghost predicate Spaced(nodes: seq<nat>, words: nat)
  {
    && |nodes| > 0
    && (forall i :: 0 <= i < |nodes| ==>
          HEAP_BASE <= nodes[i] && nodes[i] % 8 == 0 && nodes[i] + HEADER <= HEAP_BASE + 8 * words)
    && forall i, j :: 0 <= i < j < |nodes| ==> nodes[i] + HEADER <= nodes[j]
  }

  /** A word that holds no link of these nodes. */
  ghost predicate OffLinks(nodes: seq<nat>, x: nat)
  {
    forall i :: 0 <= i < |nodes| ==> x != nodes[i] + 8 && x != nodes[i] + 16
  }

  /** Only links of these nodes differ. */
  ghost predicate LinksOnly(w: seq<u64>, w': seq<u64>, nodes: seq<nat>)
  {
    |w'| == |w| && forall x: nat :: OffLinks(nodes, x) ==> At(w', x) == At(w, x)
  }

  lemma CellIn(w: seq<u64>, a: nat)
    requires HEAP_BASE <= a && a % 8 == 0 && a + 8 <= HEAP_BASE + 8 * |w|
    ensures InHeap(w, a)
  {
  }

  lemma NodeCells(w: seq<u64>, nodes: seq<nat>, i: nat)
    requires Spaced(nodes, |w|) && i < |nodes|
    ensures InHeap(w, nodes[i]) && InHeap(w, nodes[i] + 8) && InHeap(w, nodes[i] + 16)
  {
    CellIn(w, nodes[i]);
    CellIn(w, nodes[i] + 8);
    CellIn(w, nodes[i] + 16);
  }

  /** allocation_dll_insert(a, b), for a != b */
  ghost function InsertAfter(w: seq<u64>, a: u64, b: u64): (w': seq<u64>)
    ensures |w'| == |w|
  {
    var n := At(w, a as int + 16);
    Put(Put(Put(Put(w, b as int + 16, n), b as int + 8, a), a as int + 16, b), n as int + 8, b)
  }

  /** allocation_dll_delete(a), when a is not alone */
  ghost function Unlink(w: seq<u64>, a: u64): (w': seq<u64>)
    ensures |w'| == |w|
  {
    var p, n := At(w, a as int + 8), At(w, a as int + 16);
    Put(Put(w, n as int + 8, p), p as int + 16, n)
  }

  lemma InsertValues(w: seq<u64>, a: u64, b: u64, x: nat)
    requires InHeap(w, a as int + 16) && InHeap(w, b as int + 8) && InHeap(w, b as int + 16)
    requires InHeap(w, At(w, a as int + 16) as int + 8)
    ensures At(InsertAfter(w, a, b), x)
            == if x == At(w, a as int + 16) as int + 8 || x == a as int + 16 then b else if x == b as int + 8 then a
               else if x == b as int + 16 then At(w, a as int + 16) else At(w, x)
  {
    hide At, Put, InHeap;
    var n := At(w, a as int + 16);
    var w1 := Put(w, b as int + 16, n);
    var w2 := Put(w1, b as int + 8, a);
    var w3 := Put(w2, a as int + 16, b);
    InHeapSame(w, w1);
    InHeapSame(w, w2);
    InHeapSame(w, w3);
    AtPut(w, b as int + 16, n, x);
    AtPut(w1, b as int + 8, a, x);
    AtPut(w2, a as int + 16, b, x);
    AtPut(w3, n as int + 8, b, x);
  }

  lemma InHeapSame(w: seq<u64>, w': seq<u64>)
    requires |w| == |w'|
    ensures forall a :: InHeap(w', a) == InHeap(w, a)
  {
  }

  lemma UnlinkValues(w: seq<u64>, a: u64, x: nat)
    requires InHeap(w, At(w, a as int + 8) as int + 16) && InHeap(w, At(w, a as int + 16) as int + 8)
    ensures At(Unlink(w, a), x)
            == if x == At(w, a as int + 8) as int + 16 then At(w, a as int + 16)
               else if x == At(w, a as int + 16) as int + 8 then At(w, a as int + 8) else At(w, x)
  {
    hide At, Put, InHeap;
    var p, n := At(w, a as int + 8), At(w, a as int + 16);
    var w1 := Put(w, n as int + 8, p);
    InHeapSame(w, w1);
    AtPut(w, n as int + 8, p, x);
    AtPut(w1, p as int + 16, n, x);
  }

  ghost function With(nodes: seq<nat>, i: nat, b: nat): (r: seq<nat>)
    requires i < |nodes|
    ensures |r| == |nodes| + 1
  {
    nodes[..i + 1] + [b] + nodes[i + 1..]
  }

  ghost function Dropped(nodes: seq<nat>, i: nat): seq<nat>
    requires i < |nodes|
  {
    nodes[..i] + nodes[i + 1..]
  }

  /** Inserting a node after the one before it. */
  lemma Inserted(w: seq<u64>, nodes: seq<nat>, i: nat, a: u64, b: u64)
    requires Linked(w, nodes) && i < |nodes| && a as int == nodes[i] && Spaced(With(nodes, i, b as int), |w|)
    ensures Linked(InsertAfter(w, a, b), With(nodes, i, b as int))
    ensures LinksOnly(w, InsertAfter(w, a, b), With(nodes, i, b as int))
  {
    hide At, Put, InHeap, Spaced, InsertAfter, LinkedAt;
    var nodes', w' := With(nodes, i, b as int), InsertAfter(w, a, b);
    InsertCells(w, nodes, i, a, b);
    forall j | 0 <= j < |nodes'| ensures LinkedAt(w', nodes', j) {
      InsertedAt(w, nodes, i, a, b, j);
    }
    forall x: nat | OffLinks(nodes', x) ensures At(w', x) == At(w, x) {
      assert nodes'[i] == a as int && nodes'[i + 1] == b as int;
      assert x != nodes'[if i + 2 < |nodes'| then i + 2 else 0] + 8;
      InsertValues(w, a, b, x);
    }
  }

  lemma InsertCells(w: seq<u64>, nodes: seq<nat>, i: nat, a: u64, b: u64)
    requires Linked(w, nodes) && i < |nodes| && a as int == nodes[i] && Spaced(With(nodes, i, b as int), |w|)
    ensures InHeap(w, a as int + 16) && InHeap(w, b as int + 8) && InHeap(w, b as int + 16)
    ensures var n := if i + 2 < |nodes| + 1 then i + 2 else 0;
            At(w, a as int + 16) as int == Next(nodes, i) == With(nodes, i, b as int)[n]
    ensures InHeap(w, At(w, a as int + 16) as int + 8)
  {
    hide At, Put, InHeap, Spaced;
    var nodes' := With(nodes, i, b as int);
    assert LinkedAt(w, nodes, i);
    NodeCells(w, nodes', i);
    NodeCells(w, nodes', i + 1);
    NodeCells(w, nodes', if i + 2 < |nodes'| then i + 2 else 0);
  }

  /** The neighbours in the longer list. */
  lemma WithAt(nodes: seq<nat>, i: nat, b: nat, j: nat)
    requires i < |nodes| && j <= |nodes|
    ensures var nodes', k := With(nodes, i, b), if j <= i then j else j - 1;
            && nodes'[j] == (if j == i + 1 then b else nodes[k])
            && Next(nodes', j) == (if j == i then b else Next(nodes, k))
            && Prev(nodes', j) == (if j == i + 1 then nodes[i] else if j == (if i + 2 < |nodes'| then i + 2 else 0) then b else Prev(nodes, k))
  {
  }

  lemma InsertedAt(w: seq<u64>, nodes: seq<nat>, i: nat, a: u64, b: u64, j: nat)
    requires Linked(w, nodes) && i < |nodes| && a as int == nodes[i] && Spaced(With(nodes, i, b as int), |w|) && j <= |nodes|
    ensures LinkedAt(InsertAfter(w, a, b), With(nodes, i, b as int), j)
  {
    hide At, Put, InHeap, Spaced, InsertAfter, With, Next, Prev;
    var nodes' := With(nodes, i, b as int);
    var n := if i + 2 < |nodes'| then i + 2 else 0;
    InsertCells(w, nodes, i, a, b);
    WithAt(nodes, i, b as int, i);
    WithAt(nodes, i, b as int, i + 1);
    WithAt(nodes, i, b as int, j);
    assert LinkedAt(w, nodes, if j <= i then j else j - 1);
    Cells(nodes', |w|, j, i);
    Cells(nodes', |w|, j, i + 1);
    Cells(nodes', |w|, j, n);
    Cells(nodes', |w|, i, j);
    Cells(nodes', |w|, i + 1, j);
    Cells(nodes', |w|, n, j);
    InsertValues(w, a, b, nodes'[j] + 8);
    InsertValues(w, a, b, nodes'[j] + 16);
  }

  /** Link cells of different nodes differ. */
  lemma Cells(nodes: seq<nat>, words: nat, i: nat, j: nat)
    requires Spaced(nodes, words) && i < |nodes| && j < |nodes|
    ensures nodes[i] + 8 != nodes[j] + 16 && (i != j ==> nodes[i] != nodes[j])
  {
  }

  /** Unlinking a node other than the head. */
  lemma Unlinked(w: seq<u64>, nodes: seq<nat>, i: nat, a: u64)
    requires Linked(w, nodes) && 0 < i < |nodes| && a as int == nodes[i] && Spaced(nodes, |w|)
    ensures Linked(Unlink(w, a), Dropped(nodes, i)) && LinksOnly(w, Unlink(w, a), nodes)
    ensures At(w, a as int + 16) as int == Next(nodes, i) != a as int
  {
    hide At, Put, InHeap, Spaced, Unlink;
    var nodes', w' := Dropped(nodes, i), Unlink(w, a);
    var n := if i + 1 < |nodes| then i + 1 else 0;
    assert LinkedAt(w, nodes, i);
    NodeCells(w, nodes, i - 1);
    NodeCells(w, nodes, n);
    Cells(nodes, |w|, i, n);
    forall j | 0 <= j < |nodes'| ensures LinkedAt(w', nodes', j) {
      var k := if j < i then j else j + 1;
      assert nodes'[j] == nodes[k];
      assert LinkedAt(w, nodes, k);
      Cells(nodes, |w|, k, i - 1);
      Cells(nodes, |w|, k, n);
      Cells(nodes, |w|, n, k);
      Cells(nodes, |w|, i - 1, k);
      UnlinkValues(w, a, nodes[k] + 8);
      UnlinkValues(w, a, nodes[k] + 16);
    }
    forall x: nat | OffLinks(nodes, x) ensures At(w', x) == At(w, x) {
      assert x != nodes[n] + 8 && x != nodes[i - 1] + 16;
      UnlinkValues(w, a, x);
    }
  }

  // ---- the heap's invariant ---------------------------------------------------------------

  ghost predicate Headers(w: seq<u64>, blocks: seq<Block>)
  {
    forall c :: c in blocks ==> At(w, c.at) as int == c.size
  }

  /** The words up to brk are the list head and the blocks, and the list is the free blocks. */
  ghost predicate Heap(w: seq<u64>, blocks: seq<Block>, brk: nat)
  {
    && brk == HEAP_BASE + 8 * |w| && Tiles(blocks, FIRST, brk)
    && Headers(w, blocks) && At(w, HEAP_BASE) == 0 && Linked(w, Nodes(blocks))
  }

  /** The payload of every live block is as it was. */
  ghost predicate LiveKept(w: seq<u64>, w': seq<u64>, blocks: seq<Block>)
  {
    forall c, x: nat :: c in blocks && !c.free && c.at + HEADER <= x < EndOf(c) ==> At(w', x) == At(w, x)
  }

  lemma {:induction false} FreeSpaced(blocks: seq<Block>, lo: nat, hi: nat)
    requires Tiles(blocks, lo, hi) && lo % 8 == 0
    ensures lo <= hi && hi % 8 == 0
    ensures forall i :: 0 <= i < |FreeAt(blocks)| ==>
              lo <= FreeAt(blocks)[i] && FreeAt(blocks)[i] % 8 == 0 && FreeAt(blocks)[i] + HEADER <= hi
    ensures forall i, j :: 0 <= i < j < |FreeAt(blocks)| ==> FreeAt(blocks)[i] + HEADER <= FreeAt(blocks)[j]
  {
    if blocks != [] {
      FreeSpaced(blocks[..|blocks| - 1], lo, blocks[|blocks| - 1].at);
    }
  }

  lemma NodesSpaced(blocks: seq<Block>, words: nat)
    requires Tiles(blocks, FIRST, HEAP_BASE + 8 * words)
    ensures Spaced(Nodes(blocks), words)
  {
    hide FreeAt, Tiles;
    FreeSpaced(blocks, FIRST, HEAP_BASE + 8 * words);
  }

  lemma Disjoint(blocks: seq<Block>, brk: nat, c: Block, d: Block)
    requires Tiles(blocks, FIRST, brk) && c in blocks && d in blocks
    ensures c == d || EndOf(c) <= d.at || EndOf(d) <= c.at
    ensures FIRST <= c.at && EndOf(c) <= brk && c.at % 8 == 0 && c.size % 8 == 0
  {
    hide Tiles;
    TileOrder(blocks, FIRST, brk);
    var j :| 0 <= j < |blocks| && blocks[j] == c;
    var k :| 0 <= k < |blocks| && blocks[k] == d;
  }

  /** Sizes and payloads are no links. */
  lemma BlockOffLinks(blocks: seq<Block>, brk: nat, c: Block, x: nat)
    requires Tiles(blocks, FIRST, brk) && c in blocks && c.at <= x < EndOf(c)
    requires x == c.at || c.at + HEADER <= x || !c.free
    ensures OffLinks(Nodes(blocks), x)
  {
    hide Tiles, FreeAt;
    forall i | 0 <= i < |Nodes(blocks)| ensures x != Nodes(blocks)[i] + 8 && x != Nodes(blocks)[i] + 16 {
      Disjoint(blocks, brk, c, c);
      if i > 0 {
        var k := FreeAtFrom(blocks, i - 1);
        Disjoint(blocks, brk, c, blocks[k]);
      }
    }
  }

  lemma HeadOffLinks(blocks: seq<Block>, brk: nat)
    requires Tiles(blocks, FIRST, brk)
    ensures OffLinks(Nodes(blocks), HEAP_BASE)
  {
    hide Tiles, FreeAt;
    forall i | 0 <= i < |Nodes(blocks)| ensures HEAP_BASE != Nodes(blocks)[i] + 8 && HEAP_BASE != Nodes(blocks)[i] + 16 {
      if i > 0 {
        var k := FreeAtFrom(blocks, i - 1);
        Disjoint(blocks, brk, blocks[k], blocks[k]);
      }
    }
  }

  lemma LinkedPut(w: seq<u64>, nodes: seq<nat>, a: nat, x: u64)
    requires Linked(w, nodes) && OffLinks(nodes, a) && InHeap(w, a)
    ensures Linked(Put(w, a, x), nodes)
  {
    hide At, Put, InHeap;
    forall i | 0 <= i < |nodes| ensures LinkedAt(Put(w, a, x), nodes, i) {
      assert LinkedAt(w, nodes, i);
      AtPut(w, a, x, nodes[i] + 8);
      AtPut(w, a, x, nodes[i] + 16);
    }
  }

  /** New words at every size cell, and unchanged words elsewhere off the links, make the new blocks' heap. */
  lemma Rebuilt(w: seq<u64>, blocks: seq<Block>, brk: nat, w': seq<u64>, blocks': seq<Block>, all: seq<Block>)
    requires Heap(w, blocks, brk) && |w'| == |w| && Tiles(blocks', FIRST, brk) && Linked(w', Nodes(blocks'))
    requires Tiles(all, FIRST, brk)
    requires forall c :: c in blocks' ==> At(w', c.at) as int == c.size
    requires forall x: nat :: OffLinks(Nodes(all), x) && (forall c :: c in all ==> x != c.at) ==> At(w', x) == At(w, x)
    requires forall c :: c in blocks && !c.free ==> c in all || c.(free := true) in all
    ensures Heap(w', blocks', brk) && LiveKept(w, w', blocks)
  {
    hide Tiles, Nodes, At, Linked;
    forall c, x: nat | c in blocks && !c.free && c.at + HEADER <= x < EndOf(c) ensures At(w', x) == At(w, x) {
      var d := if c in all then c else c.(free := true);
      BlockOffLinks(all, brk, d, x);
      forall e | e in all ensures x != e.at { Disjoint(all, brk, d, e); }
    }
    HeadOffLinks(all, brk);
    forall e | e in all ensures HEAP_BASE != e.at { Disjoint(all, brk, e, e); }
  }

  // ---- the steps of kmalloc.c on the words ---------------------------------------------------

  lemma NodesAround(a: seq<Block>, x: Block, b: seq<Block>)
    ensures Nodes(a + [x] + b) == Nodes(a) + (if x.free then [x.at] else []) + FreeAt(b)
    ensures |Nodes(a)| > 0
  {
    hide FreeAt;
    Around(a, x, b);
    assert [HEAP_BASE] + (FreeAt(a) + (if x.free then [x.at] else []) + FreeAt(b))
        == [HEAP_BASE] + FreeAt(a) + (if x.free then [x.at] else []) + FreeAt(b);
  }

  lemma NodesAroundTwo(a: seq<Block>, x: Block, y: Block, b: seq<Block>)
    ensures Nodes(a + [x, y] + b)
            == Nodes(a) + (if x.free then [x.at] else []) + (if y.free then [y.at] else []) + FreeAt(b)
    ensures |Nodes(a)| > 0
  {
    hide FreeAt;
    assert a + [x, y] + b == (a + [x]) + [y] + b;
    NodesAround(a + [x], y, b);
    NodesAround(a, x, []);
    assert a + [x] + [] == a + [x];
    assert FreeAt([]) == [] by { NoneFree(); }
  }

  lemma NoneFree()
    ensures FreeAt([]) == [] && Live([]) == []
  {
  }

  lemma OneTile(x: Block)
    requires x.size % 8 == 0
    ensures Tiles([x], x.at, EndOf(x))
  {
    assert [x][..0] == [];
  }

  lemma TwoTiles(x: Block, y: Block)
    requires x.size % 8 == 0 && y.size % 8 == 0 && EndOf(x) == y.at
    ensures Tiles([x, y], x.at, EndOf(y))
  {
    OneTile(x);
    OneTile(y);
    TilesConcat([x], [y], x.at, y.at, EndOf(y));
    assert [x] + [y] == [x, y];
  }

  /** Taking a whole free block out of the list hands it out. */
  lemma TakeBlock(w: seq<u64>, a: seq<Block>, x: Block, b: seq<Block>, brk: nat, p: u64)
    requires Heap(w, a + [x] + b, brk) && x.free && p as int == x.at
    ensures Heap(Unlink(w, p), a + [x.(free := false)] + b, brk) && LiveKept(w, Unlink(w, p), a + [x] + b)
    ensures At(w, p as int + 16) != p
  {
    hide Tiles, Nodes, At, Linked, FreeAt, Unlink, OffLinks, Spaced;
    var blocks, blocks', y := a + [x] + b, a + [x.(free := false)] + b, x.(free := false);
    NodesAround(a, x, b);
    NodesAround(a, y, b);
    NodesSpaced(blocks, |w|);
    Disjoint(blocks, brk, x, x);
    assert x in blocks;
    OneTile(x);
    OneTile(y);
    Retiled(a, [x], [y], b, FIRST, brk, x.at, EndOf(x));
    assert Dropped(Nodes(blocks), |Nodes(a)|) == Nodes(blocks');
    Unlinked(w, Nodes(blocks), |Nodes(a)|, p);
    forall c | c in blocks' ensures At(Unlink(w, p), c.at) as int == c.size {
      var d := if c == y then x else c;
      assert d in blocks;
      StartOffLinks(blocks, brk, d);
    }
    Rebuilt(w, blocks, brk, Unlink(w, p), blocks', blocks);
  }

  lemma StartOffLinks(blocks: seq<Block>, brk: nat, c: Block)
    requires Tiles(blocks, FIRST, brk) && c in blocks
    ensures OffLinks(Nodes(blocks), c.at)
  {
    hide Tiles, Nodes, OffLinks;
    BlockOffLinks(blocks, brk, c, c.at);
  }

  /** A block put back into the list, behind the free block before it, is free again. */
  lemma FreeBlock(w: seq<u64>, a: seq<Block>, x: Block, b: seq<Block>, brk: nat, p: u64, q: u64)
    requires Heap(w, a + [x] + b, brk) && !x.free && q as int == x.at && p as int == Nodes(a)[|Nodes(a)| - 1]
    ensures Heap(InsertAfter(w, p, q), a + [x.(free := true)] + b, brk)
    ensures LiveKept(w, InsertAfter(w, p, q), a + b)
  {
    hide Tiles, Nodes, At, Linked, FreeAt, InsertAfter, OffLinks, Spaced;
    var blocks, y := a + [x] + b, x.(free := true);
    var blocks', w' := a + [y] + b, InsertAfter(w, p, q);
    NodesAround(a, x, b);
    NodesAround(a, y, b);
    assert x in blocks;
    Disjoint(blocks, brk, x, x);
    OneTile(x);
    OneTile(y);
    Retiled(a, [x], [y], b, FIRST, brk, x.at, EndOf(x));
    NodesSpaced(blocks', |w|);
    assert With(Nodes(blocks), |Nodes(a)| - 1, q as int) == Nodes(blocks');
    Inserted(w, Nodes(blocks), |Nodes(a)| - 1, p, q);
    forall c | c in blocks' ensures At(w', c.at) as int == c.size {
      var d := if c == y then x else c;
      assert d in blocks;
      StartOffLinks(blocks', brk, c);
    }
    Rebuilt(w, blocks, brk, w', blocks', blocks');
    LiveFewer(w, w', blocks, a + b);
  }

  lemma LiveFewer(w: seq<u64>, w': seq<u64>, blocks: seq<Block>, fewer: seq<Block>)
    requires LiveKept(w, w', blocks) && forall c :: c in fewer && !c.free ==> c in blocks
    ensures LiveKept(w, w', fewer)
  {
  }

  /** The free block p cut in two: its front handed out, its back q free. */
  ghost function SplitWords(w: seq<u64>, p: u64, q: u64, bytes: u64, rest: u64): seq<u64>
  {
    Unlink(InsertAfter(Put(Put(w, q, rest), p, bytes), p, q), p)
  }

  /** The words once the back q has its header and its place in the list, both parts still free. */
  lemma SplitLinked(w: seq<u64>, a: seq<Block>, x: Block, b: seq<Block>, brk: nat, p: u64, q: u64, bytes: u64, rest: u64)
    requires Heap(w, a + [x] + b, brk) && x.free && p as int == x.at && bytes as int % 8 == 0
    requires x.size == bytes as int + HEADER + rest as int && q as int == x.at + HEADER + bytes as int
    ensures var all := a + [Block(p, bytes, true), Block(q, rest, true)] + b;
            var w2 := Put(Put(w, q, rest), p, bytes);
            && Tiles(all, FIRST, brk) && Spaced(Nodes(all), |w|) && rest as int % 8 == 0
            && Linked(w2, Nodes(a + [x] + b)) && Linked(InsertAfter(w2, p, q), Nodes(all))
            && LinksOnly(w2, InsertAfter(w2, p, q), Nodes(all))
            && InHeap(w, p) && InHeap(w, q)
            && Nodes(a + [x] + b) == Nodes(a) + [p as int] + FreeAt(b)
            && Nodes(all) == Nodes(a) + [p as int] + [q as int] + FreeAt(b) && |Nodes(a)| > 0
  {
    hide Tiles, Nodes, At, Linked, FreeAt, InsertAfter, OffLinks, Spaced, Put, InHeap;
    var blocks, y, z := a + [x] + b, Block(p, bytes, true), Block(q, rest, true);
    var all := a + [y, z] + b;
    NodesAround(a, x, b);
    NodesAroundTwo(a, y, z, b);
    assert x in blocks;
    Disjoint(blocks, brk, x, x);
    OneTile(x);
    TwoTiles(y, z);
    Retiled(a, [x], [y, z], b, FIRST, brk, x.at, EndOf(x));
    NodesSpaced(all, |w|);
    CellIn(w, p as int);
    CellIn(w, q as int);
    BlockOffLinks(blocks, brk, x, p as int);
    BlockOffLinks(blocks, brk, x, q as int);
    var w1 := Put(w, q as int, rest);
    InHeapSame(w, w1);
    LinkedPut(w, Nodes(blocks), q as int, rest);
    LinkedPut(w1, Nodes(blocks), p as int, bytes);
    assert With(Nodes(blocks), |Nodes(a)|, q as int) == Nodes(all);
    Inserted(Put(w1, p as int, bytes), Nodes(blocks), |Nodes(a)|, p, q);
  }

  lemma SplitBlock(w: seq<u64>, a: seq<Block>, x: Block, b: seq<Block>, brk: nat, p: u64, q: u64, bytes: u64, rest: u64)
    requires Heap(w, a + [x] + b, brk) && x.free && p as int == x.at && bytes as int % 8 == 0
    requires x.size == bytes as int + HEADER + rest as int && q as int == x.at + HEADER + bytes as int
    ensures Heap(SplitWords(w, p, q, bytes, rest), a + [Block(p, bytes, false), Block(q, rest, true)] + b, brk)
    ensures LiveKept(w, SplitWords(w, p, q, bytes, rest), a + [x] + b)
    ensures At(InsertAfter(Put(Put(w, q, rest), p, bytes), p, q), p as int + 16) != p
  {
    hide Tiles, Nodes, At, Linked, FreeAt, InsertAfter, Unlink, OffLinks, Spaced, Put, InHeap;
    SplitLinked(w, a, x, b, brk, p, q, bytes, rest);
    var blocks, y, z := a + [x] + b, Block(p, bytes, true), Block(q, rest, true);
    var blocks', all := a + [y.(free := false), z] + b, a + [y, z] + b;
    NodesAroundTwo(a, y.(free := false), z, b);
    OneTile(x);
    TwoTiles(y.(free := false), z);
    Retiled(a, [x], [y.(free := false), z], b, FIRST, brk, x.at, EndOf(x));
    var w1 := Put(w, q as int, rest);
    InHeapSame(w, w1);
    var w3 := InsertAfter(Put(w1, p as int, bytes), p, q);
    assert Dropped(Nodes(all), |Nodes(a)|) == Nodes(blocks');
    Unlinked(w3, Nodes(all), |Nodes(a)|, p);
    forall r: nat | OffLinks(Nodes(all), r)
      ensures At(Unlink(w3, p), r) == if r == p as int then bytes else if r == q as int then rest else At(w, r)
    {
      AtPut(w, q as int, rest, r);
      AtPut(w1, p as int, bytes, r);
    }
    forall c | c in blocks' ensures At(Unlink(w3, p), c.at) as int == c.size {
      var d := if c == y.(free := false) then y else c;
      assert d in all;
      StartOffLinks(all, brk, d);
      Disjoint(all, brk, d, y);
      Disjoint(all, brk, d, z);
      assert c == z || c == y.(free := false) || c in blocks;
    }
    assert y in all && z in all;
    Rebuilt(w, blocks, brk, Unlink(w3, p), blocks', all);
  }

  /** What allocation_dll_insert and allocation_dll_delete may rely on at a node. */
  lemma LinkedCells(w: seq<u64>, nodes: seq<nat>, i: nat)
    requires Linked(w, nodes) && Spaced(nodes, |w|) && i < |nodes|
    ensures InHeap(w, nodes[i] + 8) && InHeap(w, nodes[i] + 16)
    ensures InHeap(w, At(w, nodes[i] + 16) as int + 8) && InHeap(w, At(w, nodes[i] + 8) as int + 16)
    ensures At(w, nodes[i] + 16) as int == Next(nodes, i) != nodes[i] + 8
  {
    hide At, InHeap, Spaced;
    assert LinkedAt(w, nodes, i);
    NodeCells(w, nodes, i);
    NodeCells(w, nodes, if i + 1 < |nodes| then i + 1 else 0);
    NodeCells(w, nodes, if i > 0 then i - 1 else |nodes| - 1);
    Cells(nodes, |w|, i, if i + 1 < |nodes| then i + 1 else 0);
    SpacedGap(nodes, |w|, i, if i + 1 < |nodes| then i + 1 else 0);
  }

  lemma SpacedGap(nodes: seq<nat>, words: nat, i: nat, j: nat)
    requires Spaced(nodes, words) && i < |nodes| && j < |nodes|
    ensures nodes[j] != nodes[i] + 8
  {
  }

  lemma SplitCells(w: seq<u64>, a: seq<Block>, x: Block, b: seq<Block>, brk: nat, p: u64, q: u64, bytes: u64, rest: u64)
    requires Heap(w, a + [x] + b, brk) && x.free && p as int == x.at && bytes as int % 8 == 0
    requires x.size == bytes as int + HEADER + rest as int && q as int == x.at + HEADER + bytes as int
    ensures var w2 := Put(Put(w, q, rest), p, bytes);
            && InHeap(w2, p as int + 16) && InHeap(w2, At(w2, p as int + 16) as int + 8)
            && InHeap(w2, q as int + 8) && InHeap(w2, q as int + 16)
    ensures var w3 := InsertAfter(Put(Put(w, q, rest), p, bytes), p, q);
            && InHeap(w3, p as int + 8) && InHeap(w3, p as int + 16)
            && InHeap(w3, At(w3, p as int + 16) as int + 8) && InHeap(w3, At(w3, p as int + 8) as int + 16)
            && At(w3, p as int + 16) as int != p as int + 8
  {
    hide Tiles, Nodes, At, Linked, FreeAt, InsertAfter, Heap, Spaced, Put, InHeap;
    SplitLinked(w, a, x, b, brk, p, q, bytes, rest);
    HeapSpaced(w, a + [x] + b, brk);
    var all := a + [Block(p, bytes, true), Block(q, rest, true)] + b;
    var w2 := Put(Put(w, q, rest), p, bytes);
    var i := |Nodes(a)|;
    LinkedCells(w2, Nodes(a + [x] + b), i);
    LinkedCells(InsertAfter(w2, p, q), Nodes(all), i);
    NodeCells(w2, Nodes(all), i + 1);
    assert Nodes(all)[i + 1] == q as int;
  }

  lemma HeapSpaced(w: seq<u64>, blocks: seq<Block>, brk: nat)
    requires Heap(w, blocks, brk)
    ensures Spaced(Nodes(blocks), |w|)
  {
    hide Tiles, Nodes, Linked, Headers, At;
    NodesSpaced(blocks, |w|);
  }

  /** Two free neighbours made one. */
  lemma MergeBlocks(w: seq<u64>, a: seq<Block>, x: Block, y: Block, b: seq<Block>, brk: nat, p: u64, n: u64, size: u64)
    requires Heap(w, a + [x, y] + b, brk) && x.free && y.free && p as int == x.at && n as int == y.at
    requires size as int == x.size + HEADER + y.size && EndOf(x) == y.at
    ensures Heap(Unlink(Put(w, p as int, size), n), a + [Block(p, size, true)] + b, brk)
    ensures LiveKept(w, Unlink(Put(w, p as int, size), n), a + [x, y] + b)
    ensures At(Put(w, p as int, size), n as int + 16) != n
  {
    hide Tiles, Nodes, At, Linked, FreeAt, Unlink, OffLinks, Spaced, Put, InHeap;
    var blocks, z := a + [x, y] + b, Block(p, size, true);
    var blocks' := a + [z] + b;
    NodesAroundTwo(a, x, y, b);
    NodesAround(a, z, b);
    assert x in blocks && y in blocks;
    Disjoint(blocks, brk, x, x);
    Disjoint(blocks, brk, y, y);
    TwoTiles(x, y);
    OneTile(z);
    Retiled(a, [x, y], [z], b, FIRST, brk, x.at, EndOf(y));
    NodesSpaced(blocks, |w|);
    var i := |Nodes(a)| + 1;
    CellIn(w, p as int);
    StartOffLinks(blocks, brk, x);
    var w1 := Put(w, p as int, size);
    LinkedPut(w, Nodes(blocks), p as int, size);
    assert Dropped(Nodes(blocks), i) == Nodes(blocks');
    Unlinked(w1, Nodes(blocks), i, n);
    forall r: nat | OffLinks(Nodes(blocks), r)
      ensures At(Unlink(w1, n), r) == if r == p as int then size else At(w, r)
    {
      AtPut(w, p as int, size, r);
    }
    forall c | c in blocks' ensures At(Unlink(w1, n), c.at) as int == c.size {
      if c != z {
        assert c in blocks;
        StartOffLinks(blocks, brk, c);
        assert z in blocks';
        Disjoint(blocks', brk, c, z);
      }
    }
    Rebuilt(w, blocks, brk, Unlink(w1, n), blocks', blocks);
  }

  // ---- the heap's end ---------------------------------------------------------------------

  lemma {:induction false} AtMore(w: seq<u64>, more: seq<u64>, x: nat)
    ensures InHeap(w, x) ==> InHeap(w + more, x) && At(w + more, x) == At(w, x)
    ensures InHeap(w + more, x) && !InHeap(w, x) ==> (x - HEAP_BASE) / 8 >= |w| && At(w + more, x) == more[(x - HEAP_BASE) / 8 - |w|]
  {
  }

  /** Pages added at the end are one more free block. */
  ghost function GrownWords(w: seq<u64>, n: nat, p: u64, last: u64, size: u64): seq<u64>
  {
    InsertAfter(Put(w + Zeros(n), p, size), last, p)
  }

  lemma AddBlock(w: seq<u64>, blocks: seq<Block>, brk: nat, n: nat, p: u64, last: u64, size: u64)
    requires Heap(w, blocks, brk) && p as int == brk && size as int + HEADER == 8 * n
    requires last as int == Nodes(blocks)[|Nodes(blocks)| - 1]
    ensures Heap(GrownWords(w, n, p, last, size), blocks + [Block(p, size, true)], brk + 8 * n)
    ensures LiveKept(w, GrownWords(w, n, p, last, size), blocks)
  {
    hide Tiles, Nodes, At, Linked, FreeAt, InsertAfter, OffLinks, Spaced, Put, InHeap;
    var z, w0, brk' := Block(p, size, true), w + Zeros(n), brk + 8 * n;
    var blocks' := blocks + [z];
    NodesAround(blocks, z, []);
    assert blocks + [z] + [] == blocks';
    NoneFree();
    OneTile(z);
    TilesConcat(blocks, [z], FIRST, brk, brk');
    NodesSpaced(blocks, |w|);
    NodesSpaced(blocks', |w0|);
    LinkedMore(w, Zeros(n), Nodes(blocks));
    FirstIsAligned(blocks, brk);
    CellIn(w0, brk);
    assert z in blocks';
    StartOffLinksMore(blocks, z, brk');
    var i := |Nodes(blocks)| - 1;
    var w1 := Put(w0, p as int, size);
    LinkedPut(w0, Nodes(blocks), p as int, size);
    assert With(Nodes(blocks), i, p as int) == Nodes(blocks');
    Inserted(w1, Nodes(blocks), i, last, p);
    var w' := InsertAfter(w1, last, p);
    forall r: nat | OffLinks(Nodes(blocks'), r)
      ensures At(w', r) == if r == p as int then size else At(w0, r)
    {
      AtPut(w0, p as int, size, r);
    }
    forall c | c in blocks' ensures At(w', c.at) as int == c.size {
      StartOffLinks(blocks', brk', c);
      if c != z {
        assert c in blocks;
        Disjoint(blocks, brk, c, c);
        Disjoint(blocks', brk', c, z);
        CellIn(w, c.at);
        AtMore(w, Zeros(n), c.at);
      }
    }
    HeadOffLinks(blocks', brk');
    CellIn(w, HEAP_BASE);
    AtMore(w, Zeros(n), HEAP_BASE);
    forall c, x: nat | c in blocks && !c.free && c.at + HEADER <= x < EndOf(c) ensures At(w', x) == At(w, x) {
      assert c in blocks';
      BlockOffLinks(blocks', brk', c, x);
      Disjoint(blocks', brk', c, z);
      BlockBelow(w, blocks, brk, c, x);
      AtMore(w, Zeros(n), x);
      Unmapped(w, x);
      Unmapped(w0, x);
    }
  }

  lemma FirstIsAligned(blocks: seq<Block>, brk: nat)
    requires Tiles(blocks, FIRST, brk)
    ensures brk % 8 == 0 && FIRST <= brk
  {
    hide Tiles;
    TileOrder(blocks, FIRST, brk);
  }

  lemma StartOffLinksMore(blocks: seq<Block>, z: Block, brk': nat)
    requires Tiles(blocks + [z], FIRST, brk')
    ensures OffLinks(Nodes(blocks), z.at)
  {
    hide Tiles, FreeAt;
    assert z in blocks + [z];
    StartOffLinks(blocks + [z], brk', z);
    Around(blocks, z, []);
    assert blocks + [z] + [] == blocks + [z];
    assert Nodes(blocks) <= Nodes(blocks + [z]);
    forall i | 0 <= i < |Nodes(blocks)| ensures z.at != Nodes(blocks)[i] + 8 && z.at != Nodes(blocks)[i] + 16 {
      assert Nodes(blocks)[i] == Nodes(blocks + [z])[i];
    }
  }

  /** Every address inside a block that is unaligned reads as 0, every aligned one is a word of the heap. */
  lemma BlockBelow(w: seq<u64>, blocks: seq<Block>, brk: nat, c: Block, x: nat)
    requires Tiles(blocks, FIRST, brk) && brk == HEAP_BASE + 8 * |w| && c in blocks && c.at <= x < EndOf(c)
    ensures forall more: seq<u64> :: InHeap(w + more, x) ==> InHeap(w, x)
    ensures !InHeap(w, x) ==> forall more: seq<u64> :: !InHeap(w + more, x)
  {
    hide Tiles;
    Disjoint(blocks, brk, c, c);
  }

  lemma LinkedMore(w: seq<u64>, more: seq<u64>, nodes: seq<nat>)
    requires Linked(w, nodes) && Spaced(nodes, |w|)
    ensures Linked(w + more, nodes)
  {
    hide At, InHeap, Spaced;
    forall i | 0 <= i < |nodes| ensures LinkedAt(w + more, nodes, i) {
      assert LinkedAt(w, nodes, i);
      NodeCells(w, nodes, i);
      AtMore(w, more, nodes[i] + 8);
      AtMore(w, more, nodes[i] + 16);
    }
  }

  /** A page cut off the last block, which is free. */
  lemma CutBlock(w: seq<u64>, a: seq<Block>, x: Block, brk: nat, p: u64, size: u64)
    requires Heap(w, a + [x], brk) && x.free && p as int == x.at && x.size == size as int + PAGE_SIZE
    requires |w| >= PAGE_WORDS
    ensures Heap(Put(w, p as int, size)[..|w| - PAGE_WORDS], a + [x.(size := size)], brk - PAGE_SIZE)
    ensures LiveKept(w, Put(w, p as int, size)[..|w| - PAGE_WORDS], a)
  {
    hide Tiles, Nodes, At, Linked, FreeAt, OffLinks, Spaced, Put, InHeap;
    var blocks, z, w1, brk' := a + [x], x.(size := size), Put(w, p as int, size), brk - PAGE_SIZE;
    var blocks', w' := a + [z], w1[..|w| - PAGE_WORDS];
    assert x in blocks;
    Disjoint(blocks, brk, x, x);
    NodesAround(a, x, []);
    NodesAround(a, z, []);
    assert a + [x] + [] == blocks && a + [z] + [] == blocks';
    LastTile(a, x, brk);
    OneTile(z);
    TilesConcat(a, [z], FIRST, x.at, brk');
    NodesSpaced(blocks', |w'|);
    CellIn(w, p as int);
    StartOffLinks(blocks, brk, x);
    LinkedPut(w, Nodes(blocks), p as int, size);
    assert w1 == w' + w1[|w'|..];
    LinkedLess(w', w1[|w'|..], Nodes(blocks'));
    forall c | c in blocks' ensures At(w', c.at) as int == c.size {
      assert c == z || c in blocks;
      AtPut(w, p as int, size, c.at);
      Disjoint(blocks', brk', c, c);
      Disjoint(blocks', brk', c, z);
      CellIn(w', c.at);
      AtMore(w', w1[|w'|..], c.at);
    }
    assert z in blocks';
    Disjoint(blocks', brk', z, z);
    CellIn(w', HEAP_BASE);
    AtPut(w, p as int, size, HEAP_BASE);
    AtMore(w', w1[|w'|..], HEAP_BASE);
    forall c, y: nat | c in a && !c.free && c.at + HEADER <= y < EndOf(c) ensures At(w', y) == At(w, y) {
      assert c in blocks && c in blocks';
      Disjoint(blocks, brk, c, x);
      AtPut(w, p as int, size, y);
      BlockBelow(w', blocks', brk', c, y);
      AtMore(w', w1[|w'|..], y);
      Unmapped(w', y);
      Unmapped(w1, y);
    }
  }

  lemma Unmapped(w: seq<u64>, x: nat)
    ensures !InHeap(w, x) ==> At(w, x) == 0
  {
  }

  lemma LastTile(a: seq<Block>, x: Block, brk: nat)
    requires Tiles(a + [x], FIRST, brk)
    ensures Tiles(a, FIRST, x.at) && EndOf(x) == brk
  {
    assert (a + [x])[..|a + [x]| - 1] == a;
  }

  lemma LinkedLess(w: seq<u64>, more: seq<u64>, nodes: seq<nat>)
    requires Linked(w + more, nodes) && Spaced(nodes, |w|)
    ensures Linked(w, nodes)
  {
    hide At, InHeap, Spaced;
    forall i | 0 <= i < |nodes| ensures LinkedAt(w, nodes, i) {
      assert LinkedAt(w + more, nodes, i);
      NodeCells(w, nodes, i);
      AtMore(w, more, nodes[i] + 8);
      AtMore(w, more, nodes[i] + 16);
    }
  }
}
