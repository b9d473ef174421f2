/**
 * The physical page allocator (page.c): two bits per page in a bookkeeping array at the start of the heap, runs of
 * pages that can be cut from the tail, and the page frames behind it as 64-bit words.
 */
module Page {
  import opened Arith
  import opened Bytes

  type u64 = x: int | 0 <= x < 0x1_0000_0000_0000_0000

  const PAGE_SIZE: nat := 4096
  const PHYSICAL_LIMIT: nat := 0x100_0000_0000_0000   // 56-bit physical addresses
  const PAGE_WORDS: nat := 512

  // ---- what the bookkeeping bits mean ----------------------------------------

  predicate TakenBit(book: seq<byte>, p: nat)
    requires p / 4 < |book|
  {
    Bit(book[p / 4], 2 * (p % 4))
  }

  predicate LastBit(book: seq<byte>, p: nat)
    requires p / 4 < |book|
  {
    Bit(book[p / 4], 2 * (p % 4) + 1)
  }

  ghost function TakenOf(book: seq<byte>): set<nat>
  {
    set p | 0 <= p < 4 * |book| && TakenBit(book, p)
  }

  ghost function LastOf(book: seq<byte>): set<nat>
  {
    set p | 0 <= p < 4 * |book| && LastBit(book, p)
  }

  /** Which pages are taken, and which of them end a run. */
  datatype Runs = Runs(taken: set<nat>, last: set<nat>)

  ghost function RunsOf(book: seq<byte>): Runs
  {
    Runs(TakenOf(book), LastOf(book))
  }

  /** The last bit is only set on taken pages, and a run goes on until a page with its last bit set. */
  ghost predicate WellFormed(r: Runs)
  {
    && r.last <= r.taken
    && forall p :: p in r.taken && p !in r.last ==> p + 1 in r.taken
  }

  /** The pages from lo up to, not including, hi. */
  function Range(lo: nat, hi: nat): (r: set<nat>)
    ensures forall p :: p in r <==> lo <= p < hi
  {
    if lo >= hi then {} else Range(lo, hi - 1) + {hi - 1}
  }

  /** n free pages starting at i. */
  ghost predicate FreeRun(r: Runs, total: nat, i: nat, n: nat)
  {
    i + n <= total && Range(i, i + n) !! r.taken
  }

  /** Where page_znalloc may look: runs starting in the first tenth of the heap. */
  ghost predicate LowestRun(r: Runs, total: nat, n: nat, i: nat)
  {
    i < total / 10 && FreeRun(r, total, i, n) && forall k :: 0 <= k < i ==> !FreeRun(r, total, k, n)
  }

  /** The page that ends the run p is in. */
  ghost function RunEnd(r: Runs, total: nat, p: nat): (e: nat)
    ensures e >= p
    decreases total - p
  {
    if p in r.last || p >= total then p else RunEnd(r, total, p + 1)
  }

  lemma {:induction false} RunEndIn(r: Runs, total: nat, p: nat)
    requires WellFormed(r) && p in r.taken && forall q :: q in r.taken ==> q < total
    ensures var e := RunEnd(r, total, p);
            p <= e < total && e in r.last && forall q :: p <= q < e ==> q in r.taken && q !in r.last
    decreases total - p
  {
    if p !in r.last {
      RunEndIn(r, total, p + 1);
    }
  }

  ghost function Allocate(r: Runs, i: nat, n: nat): Runs
    requires n > 0
  {
    Runs(r.taken + Range(i, i + n), r.last + {i + n - 1})
  }

  /** Cut the run p is in just before p. */
  ghost function Cut(r: Runs, total: nat, p: nat): Runs
    requires p > 0
  {
    var e := RunEnd(r, total, p);
    Runs(r.taken - Range(p, e + 1),
         r.last - {e} + (if p - 1 in r.taken then {p - 1} else {}))
  }

  lemma AllocateKeeps(r: Runs, total: nat, i: nat, n: nat)
    requires WellFormed(r) && n > 0 && FreeRun(r, total, i, n)
    ensures WellFormed(Allocate(r, i, n))
  {
    var r' := Allocate(r, i, n);
    forall p | p in r'.taken && p !in r'.last ensures p + 1 in r'.taken {
      if p !in r.taken { assert p + 1 in Range(i, i + n); }
    }
  }

  /** There is a lowest run to hand out exactly when some run starts in the first tenth. */
  lemma SomeRun(r: Runs, total: nat, n: nat)
    ensures (exists k: nat :: LowestRun(r, total, n, k)) <==> exists k: nat :: k < total / 10 && FreeRun(r, total, k, n)
  {
    hide FreeRun;
    if k: nat :| k < total / 10 && FreeRun(r, total, k, n) {
      LowestFrom(r, total, n, k);
    }
  }

  lemma {:induction false} LowestFrom(r: Runs, total: nat, n: nat, k: nat)
    requires k < total / 10 && FreeRun(r, total, k, n)
    ensures exists j: nat :: LowestRun(r, total, n, j)
  {
    hide FreeRun;
    if j: nat :| j < k && FreeRun(r, total, j, n) {
      LowestFrom(r, total, n, j);
    } else {
      assert LowestRun(r, total, n, k);
    }
  }

  lemma RunIs(r: Runs, total: nat, n: nat, i: nat)
    requires FreeRun(r, total, i, n)
    ensures forall p :: i <= p < i + n ==> p !in r.taken
  {
    forall p | i <= p < i + n ensures p !in r.taken { assert p in Range(i, i + n); }
  }

  /** The cut frees p and what follows it up to the end e of its run, and the page before, if taken, ends a run now. */
  lemma CutMeans(r: Runs, total: nat, p: nat) returns (e: nat)
    requires WellFormed(r) && p > 0 && p in r.taken && forall q :: q in r.taken ==> q < total
    ensures p <= e < total && e in r.last && forall q :: p <= q < e ==> q in r.taken && q !in r.last
    ensures forall q: nat :: q in Cut(r, total, p).taken <==> q in r.taken && !(p <= q <= e)
    ensures forall q: nat :: q in Cut(r, total, p).last <==> (q in r.last && q != e) || (q + 1 == p && q in r.taken)
  {
    RunEndIn(r, total, p);
    e := RunEnd(r, total, p);
  }

  lemma CutKeeps(r: Runs, total: nat, p: nat)
    requires WellFormed(r) && p > 0 && p in r.taken && forall q :: q in r.taken ==> q < total
    ensures WellFormed(Cut(r, total, p))
    ensures RunEnd(r, total, p) >= p
  {
    RunEndIn(r, total, p);
  }

  /** Cutting right after an allocation, at its first page, undoes it. */
  lemma CutAllocated(r: Runs, total: nat, i: nat, n: nat)
    requires WellFormed(r) && i > 0 && n > 0 && FreeRun(r, total, i, n) && forall q :: q in r.taken ==> q < total
    ensures Cut(Allocate(r, i, n), total, i) == r
  {
    var r' := Allocate(r, i, n);
    AllocateKeeps(r, total, i, n);
    RunEndIn(r', total, i);
    var e := RunEnd(r', total, i);
    assert e < i + n ==> e in Range(i, i + n);
    assert i - 1 in r.taken ==> i - 1 in r.last by { assert i in Range(i, i + n); }
    assert Range(i, e + 1) == Range(i, i + n);
    assert r'.taken - Range(i, i + n) == r.taken;
    assert r'.last - {e} == r.last by { assert e in Range(i, i + n); }
  }

  // ---- the bits ------------------------------------------------------------------

  /** Setting or clearing one of a page's two bits leaves every other bit alone. */
  lemma BitWritten(book: seq<byte>, p: nat, which: nat, on: bool, q: nat, other: nat)
    requires p / 4 < |book| && q / 4 < |book| && which < 2 && other < 2
    ensures var book' := book[p / 4 := ByteWithBit(book[p / 4], 2 * (p % 4) + which, on)];
            Bit(book'[q / 4], 2 * (q % 4) + other)
            == if q == p && other == which then on else Bit(book[q / 4], 2 * (q % 4) + other)
  {
    hide Bit;
    if q / 4 == p / 4 {
      assert 2 * (q % 4) + other == 2 * (p % 4) + which <==> q == p && other == which;
    }
  }

  lemma TakenWritten(book: seq<byte>, p: nat, on: bool)
    requires p / 4 < |book|
    ensures var book' := book[p / 4 := ByteWithBit(book[p / 4], 2 * (p % 4), on)];
            RunsOf(book') == RunsOf(book).(taken := if on then TakenOf(book) + {p} else TakenOf(book) - {p})
  {
    hide Bit;
    var book' := book[p / 4 := ByteWithBit(book[p / 4], 2 * (p % 4), on)];
    forall q | 0 <= q < 4 * |book|
      ensures TakenBit(book', q) == if q == p then on else TakenBit(book, q)
      ensures LastBit(book', q) == LastBit(book, q)
    {
      BitWritten(book, p, 0, on, q, 0);
      BitWritten(book, p, 0, on, q, 1);
    }
    assert TakenOf(book') == if on then TakenOf(book) + {p} else TakenOf(book) - {p};
    assert LastOf(book') == LastOf(book);
  }

  lemma LastWritten(book: seq<byte>, p: nat, on: bool)
    requires p / 4 < |book|
    ensures var book' := book[p / 4 := ByteWithBit(book[p / 4], 2 * (p % 4) + 1, on)];
            RunsOf(book') == RunsOf(book).(last := if on then LastOf(book) + {p} else LastOf(book) - {p})
  {
    hide Bit;
    var book' := book[p / 4 := ByteWithBit(book[p / 4], 2 * (p % 4) + 1, on)];
    forall q | 0 <= q < 4 * |book|
      ensures LastBit(book', q) == if q == p then on else LastBit(book, q)
      ensures TakenBit(book', q) == TakenBit(book, q)
    {
      BitWritten(book, p, 1, on, q, 0);
      BitWritten(book, p, 1, on, q, 1);
    }
    assert LastOf(book') == if on then LastOf(book) + {p} else LastOf(book) - {p};
    assert TakenOf(book') == TakenOf(book);
  }

  // ---- the allocator -----------------------------------------------------------------

  class Ram {
    const start: nat             // sym_start(heap)
    const total: nat             // pages in the heap
    const book: array<byte>      // two bits per page
    const words: array<u64>      // the page frames, from FrameBase() to the end of the heap

    ghost predicate Valid()
    {
      && start % PAGE_SIZE == 0 && start > 0 && total % 4 == 0 && total >= 4
      && start + total * PAGE_SIZE <= PHYSICAL_LIMIT
      && book.Length == total / 4 && words.Length == (total - BookPages()) * PAGE_WORDS
    }

    constructor (start: nat, total: nat)
      requires start % PAGE_SIZE == 0 && start > 0 && total % 4 == 0 && total >= 4
      requires start + total * PAGE_SIZE <= PHYSICAL_LIMIT
      ensures Valid() && this.start == start && this.total == total && fresh(book) && fresh(words)
    {
      this.start, this.total := start, total;
      var bookPages: nat := (total / 4 + PAGE_SIZE - 1) / PAGE_SIZE;
      assert bookPages <= total;
      book := new byte[total / 4];
      words := new u64[(total - bookPages) * PAGE_WORDS];
    }

    function BookPages(): (n: nat)
      ensures total >= 4 ==> 1 <= n <= total
    {
      (total / 4 + PAGE_SIZE - 1) / PAGE_SIZE
    }

    /** The address of page frame 0: the bookkeeping rounded up to whole pages comes first. */
    function FrameBase(): nat { start + BookPages() * PAGE_SIZE }

    function End(): nat { start + total * PAGE_SIZE }

    function Frame(p: nat): nat { FrameBase() + p * PAGE_SIZE }

    /** Pages whose frame lies inside the heap. */
    function Usable(): nat requires total >= 4 { total - BookPages() }

    ghost function State(): Runs
      reads book
    {
      RunsOf(book[..])
    }

    ghost function Memory(): (m: seq<u64>)
      reads words
      ensures |m| == words.Length
    {
      words[..]
    }

    predicate IsTaken(p: nat)
      requires p / 4 < book.Length
      reads book
    {
      Bit(book[p / 4], 2 * (p % 4))
    }

    predicate IsLast(p: nat)
      requires p / 4 < book.Length
      reads book
    {
      Bit(book[p / 4], 2 * (p % 4) + 1)
    }

    method SetTaken(p: nat, on: bool)
      requires p / 4 < book.Length
      modifies book
      ensures State() == old(State()).(taken := if on then old(State()).taken + {p} else old(State()).taken - {p})
    {
      hide Bit, TakenOf, LastOf;
      TakenWritten(book[..], p, on);
      ghost var before := book[..];
      book[p / 4] := ByteWithBit(book[p / 4], 2 * (p % 4), on);
      assert book[..] == before[p / 4 := ByteWithBit(before[p / 4], 2 * (p % 4), on)];
    }

    method SetLast(p: nat, on: bool)
      requires p / 4 < book.Length
      modifies book
      ensures State() == old(State()).(last := if on then old(State()).last + {p} else old(State()).last - {p})
    {
      hide Bit, TakenOf, LastOf;
      LastWritten(book[..], p, on);
      ghost var before := book[..];
      book[p / 4] := ByteWithBit(book[p / 4], 2 * (p % 4) + 1, on);
      assert book[..] == before[p / 4 := ByteWithBit(before[p / 4], 2 * (p % 4) + 1, on)];
    }

    lemma BitsAre(p: nat)
      requires p / 4 < book.Length
      ensures IsTaken(p) <==> p in State().taken
      ensures IsLast(p) <==> p in State().last
      ensures p in State().taken <==> book[p / 4] as int / Pow(2, 2 * (p % 4)) % 2 == 1
      ensures p in State().last <==> book[p / 4] as int / Pow(2, 2 * (p % 4) + 1) % 2 == 1
      ensures forall q :: q in State().taken || q in State().last ==> q < 4 * book.Length
    {
      hide Bit, Pow;
      BitIs(book[p / 4], 2 * (p % 4));
      BitIs(book[p / 4], 2 * (p % 4) + 1);
      assert IsTaken(p) == TakenBit(book[..], p);
      assert IsLast(p) == LastBit(book[..], p);
    }

    /** page_init: the bookkeeping pages are one taken run and every other page is free. */
    method PageInit()
      requires Valid()
      modifies book
      ensures State() == Runs(Range(0, BookPages()), {BookPages() - 1}) && WellFormed(State())
    {
      hide Bit, TakenOf, LastOf;
      forall k | 0 <= k < book.Length { book[k] := 0; }
      AllFree(book[..]);
      var i := 0;
      while i < BookPages()
        invariant 0 <= i <= BookPages() && State() == Runs(Range(0, i), {})
      {
        SetTaken(i, true);
        assert Range(0, i + 1) == Range(0, i) + {i};
        i := i + 1;
      }
      SetLast(i - 1, true);
      assert {} + {i - 1} == {i - 1};
    }

    /**
     * page_znalloc: the lowest run of n free pages that starts in the first tenth of the heap, zeroed; its physical
     * address, or 0 when there is none.
     */
    method PageZnalloc(n: nat) returns (address: nat, ghost i: nat)
      requires Valid() && n >= 1
      requires forall k: nat :: LowestRun(State(), total, n, k) ==> k + n <= Usable()
      modifies book, words
      ensures address == 0 <==> forall k: nat :: !LowestRun(old(State()), total, n, k)
      ensures address == 0 <==> forall k: nat :: k < total / 10 ==> !FreeRun(old(State()), total, k, n)
      ensures address != 0 ==>
        && i < total / 10 && i + n <= total && (forall k: nat :: k < i ==> !FreeRun(old(State()), total, k, n))
        && address == start + (total / 4 + 4095) / 4096 * 4096 + i * 4096
        && (forall p :: i <= p < i + n ==> p !in old(State()).taken)
        && (forall p :: p in State().taken <==> p in old(State()).taken || i <= p < i + n)
        && State().last == old(State()).last + {i + n - 1}
      ensures address == 0 ==> State() == old(State()) && Memory() == old(Memory())
      ensures address != 0 ==>
        && LowestRun(old(State()), total, n, i) && address == Frame(i) && i + n <= Usable()
        && State() == Allocate(old(State()), i, n)
        && |Memory()| == |old(Memory())|
        && (forall w :: 0 <= w < |Memory()| ==>
              Memory()[w] == if i * PAGE_WORDS <= w < (i + n) * PAGE_WORDS then 0 else old(Memory())[w])
    {
      hide Bit, TakenOf, LastOf;
      i := 0;
      var at := 0;
      while at < total / 10
        invariant State() == old(State()) && Memory() == old(Memory())
        invariant forall k :: 0 <= k < at ==> !FreeRun(State(), total, k, n)
      {
        BitsAre(at);
        if !IsTaken(at) {
          var consecutive := CountFree(at, n);
          if consecutive >= n {
            i := at;
            assert LowestRun(State(), total, n, at);
            RunIs(State(), total, n, at);
            Take(at, n);
            forall w | at * PAGE_WORDS <= w < (at + n) * PAGE_WORDS { words[w] := 0; }
            return Frame(at), i;
          }
        } else {
          assert at in Range(at, at + n);
        }
        at := at + 1;
      }
      assert forall k: nat :: !LowestRun(State(), total, n, k);
      assert forall k: nat :: k < total / 10 ==> !FreeRun(State(), total, k, n);
      return 0, i;
    }

    /** The scan from page i on: n when n pages from i are free, fewer when one of them is taken or the heap ends. */
    method CountFree(i: nat, n: nat) returns (consecutive: nat)
      requires Valid() && n >= 1 && i < total
      ensures consecutive >= n <==> FreeRun(State(), total, i, n)
    {
      hide Bit, TakenOf, LastOf;
      consecutive := 0;
      var j := i;
      while j < total
        invariant i <= j <= total && consecutive == j - i < n
        invariant Range(i, j) !! State().taken
      {
        BitsAre(j);
        if IsTaken(j) {
          assert j in Range(i, i + n);
          return 0;
        }
        consecutive := consecutive + 1;
        j := j + 1;
        if consecutive >= n {
          return;
        }
      }
    }

    /** Mark n pages from i taken, and the last of them as the end of the run. */
    method Take(i: nat, n: nat)
      requires Valid() && n >= 1 && i + n <= total
      modifies book
      ensures State() == Allocate(old(State()), i, n)
    {
      hide Bit, TakenOf, LastOf;
      var j := 0;
      while j < n
        invariant 0 <= j <= n && State() == old(State()).(taken := old(State()).taken + Range(i, i + j))
      {
        SetTaken(i + j, true);
        assert Range(i, i + j + 1) == Range(i, i + j) + {i + j};
        j := j + 1;
      }
      SetLast(i + j - 1, true);
    }

    /** The page number page_free computes from an address. */
    function Location(page: nat): (p: nat)
      requires page >= start + total / 4
    {
      (page - total / 4 - start) / PAGE_SIZE
    }

    /** The address-to-page division undoes the rounding of the bookkeeping. */
    lemma LocationOf(p: nat)
      requires Valid()
      ensures Frame(p) >= start + total / 4 && Location(Frame(p)) == p
    {
    }

    /** How far the frames are shifted up by rounding the bookkeeping to whole pages. */
    function Shift(): int { BookPages() * PAGE_SIZE - total / 4 }

    /** An address inside a page counts for that page except in its last Shift() bytes, which count for the next one. */
    lemma LocationInside(p: nat, x: nat)
      requires Valid() && x < PAGE_SIZE
      ensures 0 <= Shift() < PAGE_SIZE && Frame(p) + x >= start + total / 4
      ensures Location(Frame(p) + x) == if x < PAGE_SIZE - Shift() then p else p + 1
    {
      LocationOf(p);
      var d := Shift() + x;
      assert Frame(p) + x - total / 4 - start == p * PAGE_SIZE + d;
      assert 0 <= d < 2 * PAGE_SIZE;
    }

    /**
     * page_free, of any address past the bookkeeping's first page: an address outside the heap is reported and ignored,
     * and so is a page that is not taken; otherwise the run is cut just before the page.
     */
    method PageFree(page: nat)
      requires Valid() && WellFormed(State())
      requires start <= page <= End() ==> page >= start + total / 4 + PAGE_SIZE
      modifies book
      ensures page < start || page > End() ==> State() == old(State())
      ensures start <= page <= End() ==>
        State() == if Location(page) in old(State()).taken then Cut(old(State()), total, Location(page)) else old(State())
      ensures WellFormed(State())
    {
      hide Bit, TakenOf, LastOf, RunEnd, WellFormed;
      if page < start || page > End() {
        return;
      }
      var location: nat := (page - total / 4 - start) / PAGE_SIZE;
      assert 1 <= location == Location(page) < total;
      ghost var p := location;
      BitsAre(location - 1);
      BitsAre(location);
      ghost var r0 := State();
      CutFacts(r0, total, p);
      if IsTaken(location - 1) {
        SetLast(location - 1, true);
      }
      FreeToEnd(location, p, RunEnd(r0, total, p));
      CutIs(r0, State(), total, p);
    }

    /** The loop of page_free: clear pages up to the end of the run, or stop at once on a free page. */
    method FreeToEnd(location0: nat, ghost p: nat, ghost e: nat)
      requires Valid() && location0 == p < total
      requires p in State().taken ==>
        p <= e < total && e in State().last && (forall q :: p <= q <= e ==> q in State().taken)
        && forall q :: p <= q < e ==> q !in State().last
      modifies book
      ensures State() == if p in old(State()).taken
                         then Runs(old(State()).taken - Range(p, e + 1), old(State()).last - {e}) else old(State())
    {
      hide Bit, TakenOf, LastOf;
      ghost var r := State();
      var location := location0;
      while true
        invariant p <= location <= total
        invariant p in r.taken ==> location <= e && State() == Runs(r.taken - Range(p, location), r.last)
        invariant p !in r.taken ==> location == p && State() == r
        decreases total - location
      {
        BitsAre(location);
        if !IsTaken(location) {
          return;
        } else if IsLast(location) {
          SetTaken(location, false);
          SetLast(location, false);
          break;
        }
        SetTaken(location, false);
        assert Range(p, location + 1) == Range(p, location) + {location};
        location := location + 1;
      }
      assert Range(p, e + 1) == Range(p, e) + {e};
    }
  }

  /** Ending the run before p and freeing from p on is the cut. */
  lemma CutIs(r0: Runs, r: Runs, total: nat, p: nat)
    requires p > 0 && (p !in r0.taken && p - 1 in r0.taken ==> p - 1 in r0.last) && WellFormed(r0)
    requires p in r0.taken ==> WellFormed(Cut(r0, total, p)) && p - 1 != RunEnd(r0, total, p)
    requires var last := if p - 1 in r0.taken then r0.last + {p - 1} else r0.last;
             r == if p in r0.taken then Runs(r0.taken - Range(p, RunEnd(r0, total, p) + 1), last - {RunEnd(r0, total, p)})
                  else Runs(r0.taken, last)
    ensures r == if p in r0.taken then Cut(r0, total, p) else r0
    ensures WellFormed(r)
  {
    hide WellFormed;
    if p in r0.taken {
      assert r.last == Cut(r0, total, p).last;
    } else {
      assert r.last == r0.last;
    }
  }

  /** A free page follows only pages that end their run; a taken one has an end of its run ahead. */
  lemma CutFacts(r: Runs, total: nat, p: nat)
    requires WellFormed(r) && p > 0 && forall q :: q in r.taken ==> q < total
    ensures p !in r.taken && p - 1 in r.taken ==> p - 1 in r.last
    ensures p in r.taken ==>
      && WellFormed(Cut(r, total, p)) && RunEnd(r, total, p) < total && RunEnd(r, total, p) in r.last
      && (forall q :: p <= q <= RunEnd(r, total, p) ==> q in r.taken)
      && (forall q :: p <= q < RunEnd(r, total, p) ==> q !in r.last)
  {
    if p in r.taken {
      CutKeeps(r, total, p);
      RunEndIn(r, total, p);
    }
  }

  lemma AllFree(book: seq<byte>)
    requires forall k :: 0 <= k < |book| ==> book[k] == 0
    ensures RunsOf(book) == Runs({}, {})
  {
    forall p | 0 <= p < 4 * |book| ensures !TakenBit(book, p) && !LastBit(book, p) {
      ZeroBit(2 * (p % 4));
      ZeroBit(2 * (p % 4) + 1);
    }
  }

  lemma {:induction false} ZeroBit(k: nat)
    ensures !Bit(0, k)
  {
    if k > 0 { ZeroBit(k - 1); }
  }
}
