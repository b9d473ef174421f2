/**
 * The block device's virtqueue (block.c:205-303 and 374-410; split virtqueues, section 2.6 of VirtIO 1.1): three
 * descriptors per request, rings of 256 entries, and 16-bit indices that wrap around.
 */
module Virtqueue {

  const QUEUE_SIZE: nat := 256
  const WINDOW: nat := 85
  const FLAG_NEXT: nat := 1
  const FLAG_WRITE: nat := 2

  datatype Desc = Desc(address: nat, length: nat, flags: nat, next: nat)

  /** A request: the physical addresses of its header, buffer and status byte, the buffer's length, and its direction. */
  datatype Request = Request(header: nat, data: nat, status: nat, length: nat, write: bool)

  const HEADER_LENGTH: nat := 16
  const STATUS_LENGTH: nat := 1

  /** A 16-bit counter's next value. */
  function Next16(x: nat): nat { (x + 1) % 0x1_0000 }

  /** The i-th descriptor of request number k, k counting from the first request ever. */
  function Slot(k: nat, i: nat): (d: nat)
    ensures d < QUEUE_SIZE
  {
    (3 * k + i) % QUEUE_SIZE
  }

  /** Chains of requests in one window share no descriptor, however often the indices have wrapped. */
  lemma ChainsDisjoint(j: nat, k: nat, p: nat, q: nat)
    requires j != k && p < 3 && q < 3 && j < k + 85 && k < j + 85
    ensures Slot(j, p) != Slot(k, q)
  {
    var x, y := 3 * j + p, 3 * k + q;
    assert x != y && -256 < x - y < 256;
  }

  /** One request further apart and they do. */
  lemma WindowIsLargest(k: nat)
    ensures Slot(k + 85, 1) == Slot(k, 0)
  {
  }

  lemma ModAdd(a: nat, x: nat, n: nat)
    requires n == QUEUE_SIZE || n == 0x1_0000
    ensures (a * n + x) % n == x % n
  {
    if n == QUEUE_SIZE { assert (a * 256 + x) % 256 == x % 256; } else { assert (a * 0x1_0000 + x) % 0x1_0000 == x % 0x1_0000; }
  }

  /** The 16-bit request index modulo the queue size is where the next chain starts. */
  lemma IndexWraps(k: nat, i: nat)
    ensures (3 * k + i) % 0x1_0000 % QUEUE_SIZE == Slot(k, i)
    ensures Next16((3 * k + i) % 0x1_0000) == (3 * k + i + 1) % 0x1_0000
  {
    RingWraps(3 * k + i);
  }

  lemma RingWraps(n: nat)
    ensures n % 0x1_0000 % QUEUE_SIZE == n % QUEUE_SIZE && Next16(n % 0x1_0000) == (n + 1) % 0x1_0000
  {
    var a, b := n / 0x1_0000, n % 0x1_0000;
    assert n == a * 0x1_0000 + b;
    ModAdd(a, b + 1, 0x1_0000);
    ModAdd(256 * a, b, QUEUE_SIZE);
  }

  /** The descriptors of request k say what it asks for. */
  ghost predicate Chained(d: seq<Desc>, k: nat, r: Request)
    requires |d| == QUEUE_SIZE
  {
    && d[Slot(k, 0)] == Desc(r.header, HEADER_LENGTH, FLAG_NEXT, Slot(k, 1))
    && d[Slot(k, 1)] == Desc(r.data, r.length, if r.write then FLAG_NEXT else FLAG_NEXT + FLAG_WRITE, Slot(k, 2))
    && d[Slot(k, 2)] == Desc(r.status, STATUS_LENGTH, FLAG_WRITE, 0)
  }

  /** Follow the chain from a head as a device does: while the NEXT flag is set. */
  ghost function Follow(d: seq<Desc>, head: nat, fuel: nat): seq<nat>
    requires |d| == QUEUE_SIZE
    decreases fuel
  {
    if head >= QUEUE_SIZE then []
    else if d[head].flags % 2 == FLAG_NEXT && fuel > 0 then [head] + Follow(d, d[head].next, fuel - 1)
    else [head]
  }

  /** What a device reads when it follows the chain from its head. */
  lemma ChainRead(d: seq<Desc>, k: nat, r: Request)
    requires |d| == 256 && Chained(d, k, r)
    ensures var d1 := d[Slot(k, 0)];
      && d1.next < 256 && d[d1.next].next < 256
      && var d2 := d[d1.next]; var d3 := d[d2.next];
      && d1.address == r.header && d2.address == r.data && d3.address == r.status
      && d1.length == 16 && d2.length == r.length && d3.length == 1
      && d1.flags % 2 == 1 && d2.flags % 2 == 1 && d3.flags % 2 == 0
      && d1.flags / 2 == 0 && d2.flags / 2 == (if r.write then 0 else 1) && d3.flags / 2 == 1
  {
    hide Slot;
  }

  /** A device that follows a chain visits the head and the two descriptors after it, and stops there. */
  lemma FollowChain(d: seq<Desc>, k: nat, r: Request, fuel: nat)
    requires |d| == QUEUE_SIZE && Chained(d, k, r) && fuel >= 2
    ensures Follow(d, Slot(k, 0), fuel) == [Slot(k, 0), Slot(k, 1), Slot(k, 2)]
    ensures (Slot(k, 0) + 1) % QUEUE_SIZE == Slot(k, 1) && (Slot(k, 0) + 2) % QUEUE_SIZE == Slot(k, 2)
  {
    hide Slot;
    SlotsFollow(k);
    assert Follow(d, Slot(k, 2), fuel - 2) == [Slot(k, 2)];
    assert Follow(d, Slot(k, 1), fuel - 1) == [Slot(k, 1)] + Follow(d, Slot(k, 2), fuel - 2);
    assert Follow(d, Slot(k, 0), fuel) == [Slot(k, 0)] + Follow(d, Slot(k, 1), fuel - 1);
  }

  lemma SlotsFollow(k: nat)
    ensures (Slot(k, 0) + 1) % QUEUE_SIZE == Slot(k, 1) && (Slot(k, 0) + 2) % QUEUE_SIZE == Slot(k, 2)
  {
    var a, b := 3 * k / QUEUE_SIZE, Slot(k, 0);
    assert 3 * k == a * QUEUE_SIZE + b;
    ModAdd(a, b + 1, QUEUE_SIZE);
    ModAdd(a, b + 2, QUEUE_SIZE);
  }

  // ---- what is outstanding ------------------------------------------------------------

  /** A request the handler has not acknowledged. */
  ghost predicate Live(requests: nat, served: seq<nat>, acked: nat, k: nat)
    requires acked <= |served|
  {
    k < requests && k !in served[..acked]
  }

  /** Nothing live is further back than the window. */
  ghost predicate InWindow(requests: nat, served: seq<nat>, acked: nat)
    requires acked <= |served|
  {
    forall k :: 0 <= k < requests && Live(requests, served, acked, k) ==> requests <= k + WINDOW
  }

  ghost predicate Served(requests: nat, served: seq<nat>)
  {
    && (forall i :: 0 <= i < |served| ==> served[i] < requests)
    && forall i, j :: 0 <= i < j < |served| ==> served[i] != served[j]
  }

  /** The device's ring still shows what was served since the last acknowledgement. */
  ghost predicate Shown(ring: seq<nat>, served: seq<nat>, acked: nat)
    requires |ring| == QUEUE_SIZE
  {
    forall i :: acked <= i < |served| ==> ring[i % QUEUE_SIZE] == Slot(served[i], 0)
  }

  ghost predicate AllChained(d: seq<Desc>, requests: seq<Request>, served: seq<nat>, acked: nat)
    requires |d| == QUEUE_SIZE && acked <= |served|
  {
    forall k :: 0 <= k < |requests| && Live(|requests|, served, acked, k) ==> Chained(d, k, requests[k])
  }

  /** What was served but not acknowledged is live. */
  lemma ServedLive(requests: nat, served: seq<nat>, acked: nat, i: nat)
    requires Served(requests, served) && acked <= i < |served|
    ensures Live(requests, served, acked, served[i])
  {
  }

  /** At most a window's worth was served since the last acknowledgement. */
  lemma FewServed(requests: nat, served: seq<nat>, acked: nat)
    requires acked <= |served| && Served(requests, served) && InWindow(requests, served, acked)
    ensures |served| <= acked + WINDOW
  {
    var recent := served[acked..];
    forall i | 0 <= i < |recent| ensures requests <= recent[i] + WINDOW && recent[i] < requests {
      ServedLive(requests, served, acked, acked + i);
    }
    Pigeons(recent, if requests < WINDOW then 0 else requests - WINDOW, requests);
  }

  lemma {:induction false} Pigeons(s: seq<nat>, lo: nat, hi: nat)
    requires lo <= hi && forall i :: 0 <= i < |s| ==> lo <= s[i] < hi
    requires forall i, j :: 0 <= i < j < |s| ==> s[i] != s[j]
    ensures |s| <= hi - lo
    decreases hi - lo
  {
    if s != [] {
      assert lo <= s[0] < hi;
      if k :| 0 <= k < |s| && s[k] == hi - 1 {
        Pigeons(s[..k] + s[k + 1..], lo, hi - 1);
      } else {
        Pigeons(s, lo, hi - 1);
      }
    }
  }

  /** The driver's ring offers every live request. */
  ghost predicate Offered(ring: seq<nat>, requests: nat, served: seq<nat>, acked: nat)
    requires |ring| == QUEUE_SIZE && acked <= |served|
  {
    forall k :: 0 <= k < requests && Live(requests, served, acked, k) ==> ring[k % QUEUE_SIZE] == Slot(k, 0)
  }

  lemma SlotsApart(n: nat)
    ensures Slot(n, 0) != Slot(n, 1) && Slot(n, 1) != Slot(n, 2) && Slot(n, 0) != Slot(n, 2)
  {
  }

  lemma ThreeMore(n: nat)
    ensures 3 * (n + 1) % 0x1_0000 == (3 * n + 3) % 0x1_0000 && 3 * n % 0x1_0000 == (3 * n + 0) % 0x1_0000
  {
  }

  lemma ServedMore(requests: nat, served: seq<nat>)
    requires Served(requests, served)
    ensures Served(requests + 1, served)
  {
  }

  /** A new chain leaves the others of the window alone. */
  lemma AllChainedMore(d: seq<Desc>, d': seq<Desc>, requests: seq<Request>, served: seq<nat>, acked: nat)
    requires |d| == |d'| == QUEUE_SIZE && acked <= |served| && requests != []
    requires InWindow(|requests|, served, acked) && AllChained(d, requests[..|requests| - 1], served, acked)
    requires Chained(d', |requests| - 1, requests[|requests| - 1])
    requires forall x :: 0 <= x < QUEUE_SIZE && x != Slot(|requests| - 1, 0) && x != Slot(|requests| - 1, 1) && x != Slot(|requests| - 1, 2) ==>
               d'[x] == d[x]
    ensures AllChained(d', requests, served, acked)
  {
    hide Slot;
    var n := |requests| - 1;
    forall k | 0 <= k < |requests| && Live(|requests|, served, acked, k) ensures Chained(d', k, requests[k]) {
      if k < n {
        assert Live(n, served, acked, k);
        forall p, q | 0 <= p < 3 && 0 <= q < 3 ensures Slot(k, p) != Slot(n, q) { ChainsDisjoint(k, n, p, q); }
        assert Chained(d, k, requests[..n][k]);
      }
    }
  }

  lemma OfferedMore(ring: seq<nat>, ring': seq<nat>, n: nat, served: seq<nat>, acked: nat)
    requires |ring| == QUEUE_SIZE && acked <= |served| && Offered(ring, n, served, acked) && InWindow(n + 1, served, acked)
    requires ring' == ring[n % QUEUE_SIZE := Slot(n, 0)]
    ensures Offered(ring', n + 1, served, acked)
  {
    hide Slot;
    forall k | 0 <= k < n + 1 && Live(n + 1, served, acked, k) ensures ring'[k % QUEUE_SIZE] == Slot(k, 0) {
      if k < n {
        assert Live(n, served, acked, k);
        RingApart(k, n);
      }
    }
  }

  lemma RingApart(j: nat, k: nat)
    requires j < k <= j + WINDOW
    ensures j % QUEUE_SIZE != k % QUEUE_SIZE
  {
  }

  lemma StillLive(requests: nat, served: seq<nat>, acked: nat, k: nat)
    requires k < requests && k !in served && acked <= |served|
    ensures Live(requests, served, acked, k)
  {
  }

  lemma OfferedAt(ring: seq<nat>, requests: nat, served: seq<nat>, acked: nat, k: nat)
    requires |ring| == QUEUE_SIZE && acked <= |served| && Offered(ring, requests, served, acked)
    requires Live(requests, served, acked, k)
    ensures ring[k % QUEUE_SIZE] == Slot(k, 0)
  {
  }

  lemma ShownMore(ring: seq<nat>, ring': seq<nat>, served: seq<nat>, acked: nat, k: nat)
    requires |ring| == QUEUE_SIZE && Shown(ring, served, acked) && acked <= |served| <= acked + WINDOW
    requires ring' == ring[|served| % QUEUE_SIZE := Slot(k, 0)]
    ensures Shown(ring', served + [k], acked)
  {
    hide Slot;
    forall i | acked <= i < |served| + 1 ensures ring'[i % QUEUE_SIZE] == Slot((served + [k])[i], 0) {
      if i < |served| { RingApart(i, |served|); }
    }
  }

  lemma ServeKeeps(d: seq<Desc>, ring: seq<nat>, requests: seq<Request>, served: seq<nat>, acked: nat, k: nat)
    requires |d| == |ring| == QUEUE_SIZE && acked <= |served| && k < |requests| && k !in served && Served(|requests|, served)
    requires InWindow(|requests|, served, acked) && AllChained(d, requests, served, acked)
    requires Offered(ring, |requests|, served, acked)
    ensures Served(|requests|, served + [k]) && InWindow(|requests|, served + [k], acked)
    ensures AllChained(d, requests, served + [k], acked) && Offered(ring, |requests|, served + [k], acked)
  {
    hide Slot, Chained;
    assert (served + [k])[..acked] == served[..acked];
    forall j | 0 <= j < |requests| ensures Live(|requests|, served + [k], acked, j) == Live(|requests|, served, acked, j) { }
  }

  lemma ShownAt(ring: seq<nat>, served: seq<nat>, acked: nat, i: nat)
    requires |ring| == QUEUE_SIZE && Shown(ring, served, acked) && acked <= i < |served|
    ensures ring[i % QUEUE_SIZE] == Slot(served[i], 0)
  {
  }

  lemma ChainedAt(d: seq<Desc>, requests: seq<Request>, served: seq<nat>, acked: nat, k: nat)
    requires |d| == QUEUE_SIZE && acked <= |served| && AllChained(d, requests, served, acked)
    requires Live(|requests|, served, acked, k)
    ensures d[Slot(k, 2)].address == requests[k].status
  {
  }

  /** Acknowledging leaves less alive. */
  lemma AckKeeps(d: seq<Desc>, driver: seq<nat>, device: seq<nat>, requests: seq<Request>, served: seq<nat>, acked: nat)
    requires |d| == |driver| == |device| == QUEUE_SIZE && acked < |served|
    requires InWindow(|requests|, served, acked) && AllChained(d, requests, served, acked)
    requires Offered(driver, |requests|, served, acked) && Shown(device, served, acked)
    ensures InWindow(|requests|, served, acked + 1) && AllChained(d, requests, served, acked + 1)
    ensures Offered(driver, |requests|, served, acked + 1) && Shown(device, served, acked + 1)
  {
    hide Slot, Chained;
    assert served[..acked + 1] == served[..acked] + [served[acked]];
    var next := acked + 1;
    forall j | 0 <= j < |requests| && Live(|requests|, served, next, j) ensures Live(|requests|, served, acked, j) { }
  }

  /** Two 16-bit counters no more than a window apart are equal exactly when the counts are. */
  lemma IndexEqual(a: nat, b: nat)
    ensures a <= b <= a + WINDOW ==> (a % 0x1_0000 == b % 0x1_0000 <==> a == b)
  {
  }

  /** Fewer requests than 65536 never wrap what the device counts. */
  lemma BelowWrap(requests: nat, served: seq<nat>)
    requires Served(requests, served)
    ensures |served| <= requests && (requests < 0x1_0000 ==> |served| % 0x1_0000 == |served|)
  {
    Pigeons(served, 0, requests);
  }

  /** In the window, an unacknowledged request with the same head is the same request. */
  lemma OwnHead(requests: nat, served: seq<nat>, acked: nat, own: nat, i: nat)
    requires acked <= i < |served| && requests == own + 1 && InWindow(requests, served, acked)
    requires Live(requests, served, acked, served[i])
    ensures Slot(served[i], 0) == Slot(own, 0) ==> served[i] == own
  {
    if served[i] != own { ChainsDisjoint(served[i], own, 0, 0); }
  }

  class BlockQueue {
    const descriptor: array<Desc>
    const driverRing: array<nat>
    const deviceRing: array<nat>      // ids of used chains
    var driverIdx: nat
    var deviceIdx: nat
    var requestsIdx: nat
    var acknowledgedIdx: nat
    ghost var requests: seq<Request>  // every request so far
    var served: seq<nat>              // the device's own record of what it has finished, in order
    ghost var acked: nat              // how many of those the handler has acknowledged

    ghost predicate Valid()
      reads this, descriptor, driverRing, deviceRing
    {
      && descriptor.Length == driverRing.Length == deviceRing.Length == QUEUE_SIZE && driverRing != deviceRing
      && driverIdx == |requests| % 0x1_0000 && requestsIdx == 3 * |requests| % 0x1_0000
      && deviceIdx == |served| % 0x1_0000 && acknowledgedIdx == acked % 0x1_0000
      && acked <= |served| && Served(|requests|, served) && InWindow(|requests|, served, acked)
      && AllChained(descriptor[..], requests, served, acked) && Shown(deviceRing[..], served, acked)
      && Offered(driverRing[..], |requests|, served, acked)
    }

    constructor (descriptor: array<Desc>, driverRing: array<nat>, deviceRing: array<nat>)
      requires descriptor.Length == driverRing.Length == deviceRing.Length == QUEUE_SIZE && driverRing != deviceRing
      ensures Valid() && requests == [] && served == [] && acked == 0
    {
      this.descriptor, this.driverRing, this.deviceRing := descriptor, driverRing, deviceRing;
      driverIdx, deviceIdx, requestsIdx, acknowledgedIdx := 0, 0, 0, 0;
      requests, served, acked := [], [], 0;
    }

    /** The part of block_read_write that builds the chain and offers it to the device. */
    method Submit(r: Request) returns (head: nat)
      requires Valid() && InWindow(|requests| + 1, served, acked)
      modifies this, descriptor, driverRing
      ensures Valid() && requests == old(requests) + [r] && served == old(served) && acked == old(acked)
      ensures head == Slot(|old(requests)|, 0)
      ensures Chained(descriptor[..], |old(requests)|, r)
      // following next from the head: header, data, status, and no further
      ensures head < 256 && descriptor[head].next < 256 && descriptor[descriptor[head].next].next < 256
      ensures var d1 := descriptor[head]; var d2 := descriptor[d1.next]; var d3 := descriptor[d2.next];
        && d1.address == r.header && d2.address == r.data && d3.address == r.status
        && d1.length == 16 && d2.length == r.length && d3.length == 1
        && d1.flags % 2 == 1 && d2.flags % 2 == 1 && d3.flags % 2 == 0
        // the device may write the status, and the data of a read, and nothing else
        && d1.flags / 2 == 0 && d2.flags / 2 == (if r.write then 0 else 1) && d3.flags / 2 == 1
      ensures driverRing[old(driverIdx) % 256] == head && driverIdx == (old(driverIdx) + 1) % 0x1_0000
    {
      hide Slot, Served, InWindow, Shown, Offered, AllChained;
      ghost var n, d, ring := |requests|, descriptor[..], driverRing[..];
      IndexWraps(n, 0);
      IndexWraps(n, 1);
      IndexWraps(n, 2);
      ThreeMore(n);
      var desc1 := requestsIdx % QUEUE_SIZE;
      requestsIdx := Next16(requestsIdx);
      var desc2 := requestsIdx % QUEUE_SIZE;
      requestsIdx := Next16(requestsIdx);
      var desc3 := requestsIdx % QUEUE_SIZE;
      requestsIdx := Next16(requestsIdx);
      SlotsApart(n);
      var flags2 := if r.write then FLAG_NEXT else FLAG_NEXT + FLAG_WRITE;
      descriptor[desc1] := Desc(r.header, HEADER_LENGTH, FLAG_NEXT, desc2);
      descriptor[desc2] := Desc(r.data, r.length, flags2, desc3);
      descriptor[desc3] := Desc(r.status, STATUS_LENGTH, FLAG_WRITE, 0);
      RingWraps(n);
      driverRing[driverIdx % QUEUE_SIZE] := desc1;
      driverIdx := Next16(driverIdx);
      requests := requests + [r];
      ServedMore(n, served);
      AllChainedMore(d, descriptor[..], requests, served, acked);
      OfferedMore(ring, driverRing[..], n, served, acked);
      ChainRead(descriptor[..], n, r);
      head := desc1;
    }

    /** The device finishes one of the outstanding requests; it may take them in any order. */
    method DeviceServes(k: nat)
      requires Valid() && k < |requests| && k !in served
      modifies this, deviceRing
      ensures Valid() && served == old(served) + [k] && requests == old(requests) && acked == old(acked)
      ensures deviceRing[..] == old(deviceRing[..])[|old(served)| % QUEUE_SIZE := Slot(k, 0)]
    {
      hide Slot, InWindow, Shown, AllChained;
      ghost var ring := deviceRing[..];
      RingWraps(|served|);
      StillLive(|requests|, served, acked, k);
      OfferedAt(driverRing[..], |requests|, served, acked, k);
      deviceRing[deviceIdx % QUEUE_SIZE] := driverRing[k % QUEUE_SIZE];
      deviceIdx := Next16(deviceIdx);
      FewServed(|requests|, served, acked);
      ShownMore(ring, deviceRing[..], served, acked, k);
      ServeKeeps(descriptor[..], driverRing[..], requests, served, acked, k);
      served := served + [k];
    }

    /**
     * The loop of block_irq_handler: for everything the device finished it looks at the status descriptor of just that
     * request, and acknowledges it.
     */
    method HandleIrq() returns (statuses: seq<nat>)
      requires Valid()
      modifies this`acknowledgedIdx, this`acked
      ensures Valid() && acked == |served| && acknowledgedIdx == deviceIdx
      ensures |statuses| == |served| - old(acked)
      ensures forall i :: 0 <= i < |statuses| && old(acked) + i < |served| ==>
                served[old(acked) + i] < |requests| && statuses[i] == requests[served[old(acked) + i]].status
    {
      hide Slot, InWindow, Shown, AllChained, Offered;
      statuses := [];
      FewServed(|requests|, served, acked);
      IndexEqual(acked, |served|);
      while acknowledgedIdx != deviceIdx
        invariant Valid() && old(acked) <= acked && |statuses| == acked - old(acked)
        invariant |served| <= acked + WINDOW && (acknowledgedIdx == deviceIdx <==> acked == |served|)
        invariant forall i :: 0 <= i < |statuses| && old(acked) + i < |served| ==>
                    served[old(acked) + i] < |requests| && statuses[i] == requests[served[old(acked) + i]].status
        decreases |served| - acked
      {
        RingWraps(acked);
        ghost var k := served[acked];
        ServedLive(|requests|, served, acked, acked);
        ShownAt(deviceRing[..], served, acked, acked);
        ChainedAt(descriptor[..], requests, served, acked, k);
        var id := deviceRing[acknowledgedIdx % QUEUE_SIZE];
        SlotsFollow(k);
        id := (id + 2) % QUEUE_SIZE;
        statuses := statuses + [descriptor[id].address];
        AckKeeps(descriptor[..], driverRing[..], deviceRing[..], requests, served, acked);
        acknowledgedIdx := Next16(acknowledgedIdx);
        acked := acked + 1;
        IndexEqual(acked, |served|);
      }
    }

    /**
     * The poll of block_read_write while fewer than 65536 requests were ever made.  `moves` says what happens before each
     * look: the device finishes a request, or the interrupt handler runs on another hart and acknowledges everything
     * finished so far.  A poll that returns returns after the
     * device finished the caller's own request; it never returns when that was acknowledged before the poll began; and
     * otherwise it returns within as many looks as there are unacknowledged requests finished up to and with the own one.
     */
    method Poll(own: nat, moves: seq<Move>) returns (complete: bool)
      requires Valid() && |requests| == own + 1 < 0x1_0000
      modifies this, deviceRing
      ensures Valid() && requests == old(requests) && old(acked) <= acked && old(served) <= served
      ensures complete ==> own in served
      ensures own in old(served)[..old(acked)] ==> !complete
      ensures !complete ==>
        forall m, i :: 0 < m <= |moves| && old(acked) <= i < |Finished(old(served), own, moves, m)|
                       && Finished(old(served), own, moves, m)[i] == own ==>
          |moves| - m < i - old(acked)
    {
      hide Slot, InWindow, Shown, AllChained, Offered, Served, Finished, Caught, Moved, IsAt;
      complete := false;
      BelowWrap(|requests|, served);
      var head := Slot(own, 0);
      var lookahead := acknowledgedIdx;
      ghost var first, served0 := acked, served;
      var step := 0;
      NothingLooked(served, own, moves, first);
      while !complete && step < |moves|
        invariant Valid() && requests == old(requests) && first <= acked && served0 <= served && 0 <= step <= |moves|
        invariant first <= lookahead <= |served| < 0x1_0000
        invariant Shown(deviceRing[..], served, first) && InWindow(|requests|, served, first)
        invariant served == Finished(served0, own, moves, step) && (complete <==> own in served[first..lookahead])
        invariant Caught(served0, own, moves, step, first, lookahead, complete)
        decreases |moves| - step
      {
        ghost var finished, before := served, lookahead;
        Meanwhile(moves[step], own, first);
        NextFinished(served0, own, moves, step);
        if lookahead != deviceIdx {
          ServedLive(|requests|, served, first, lookahead);
          ShownAt(deviceRing[..], served, first, lookahead);
          OwnHead(|requests|, served, first, own, lookahead);
          if deviceRing[lookahead % QUEUE_SIZE] == head {
            complete := true;
          }
          lookahead := lookahead + 1;
        }
        SamePart(finished, served, first, before);
        LookedAt(served, first, before, lookahead, own);
        step := step + 1;
        CaughtNext(served0, own, moves, step, first, before, lookahead, complete);
      }
      CaughtEnd(served0, own, moves, first, lookahead, step, complete);
      NotTwice(|requests|, served0, served, first, lookahead, own);
    }

    /** What happens between two looks; the ring still shows everything finished since `first` was acknowledged. */
    method Meanwhile(move: Move, own: nat, ghost first: nat)
      requires Valid() && |requests| == own + 1 < 0x1_0000 && first <= acked
      requires Shown(deviceRing[..], served, first) && InWindow(|requests|, served, first)
      modifies this, deviceRing
      ensures Valid() && requests == old(requests) && old(acked) <= acked && old(served) <= served && |served| < 0x1_0000
      ensures served == Moved(old(served), own, move)
      ensures Shown(deviceRing[..], served, first) && InWindow(|requests|, served, first)
    {
      hide Slot, InWindow, Shown, AllChained, Offered, Served;
      match move {
        case Serve(k) =>
          if k <= own && k !in served {
            ghost var ring, served0 := deviceRing[..], served;
            FewServed(|requests|, served, first);
            DeviceServes(k);
            ShownMore(ring, deviceRing[..], served0, first, k);
            SameWindow(|requests|, served0, served, first);
          }
        case Acknowledge =>
          var _ := HandleIrq();
      }
      BelowWrap(|requests|, served);
    }
  }

  /** A look at the next entry adds just that one to what was looked at. */
  lemma LookedAt(served: seq<nat>, first: nat, before: nat, after: nat, own: nat)
    requires first <= before <= after <= |served| && after <= before + 1
    ensures own in served[first..after] <==> own in served[first..before] || (after > before && served[before] == own)
  {
    if after > before { assert served[first..after] == served[first..before] + [served[before]]; }
  }

  /** While the own request has not been seen, it is not among what was passed. */
  lemma NotPassed(served: seq<nat>, first: nat, before: nat, own: nat)
    requires first <= before <= |served|
    ensures own !in served[first..before] ==> forall i :: first <= i < |served| && served[i] == own ==> before <= i
  {
    forall i | first <= i < |served| && served[i] == own && i < before ensures own in served[first..before] {
      assert served[first..before][i - first] == own;
    }
  }

  lemma SamePart(served: seq<nat>, served': seq<nat>, first: nat, to: nat)
    requires served <= served' && first <= to <= |served|
    ensures served'[first..to] == served[first..to]
  {
  }

  /** Once the own request is finished, every look brings a poll that has not seen it one entry on. */
  ghost predicate Caught(served0: seq<nat>, own: nat, moves: seq<Move>, step: nat, first: nat, lookahead: nat, complete: bool)
    requires step <= |moves|
  {
    complete || forall m, i :: 0 < m <= step && IsAt(Finished(served0, own, moves, m), first, i, own) ==>
                  lookahead - first > step - m
  }

  /** The own request is entry i, and was not acknowledged when the poll began. */
  ghost predicate IsAt(served: seq<nat>, first: nat, i: int, own: nat)
  {
    first <= i < |served| && served[i] == own
  }

  lemma NothingLooked(served: seq<nat>, own: nat, moves: seq<Move>, first: nat)
    requires first <= |served|
    ensures Finished(served, own, moves, 0) == served && Caught(served, own, moves, 0, first, first, false)
    ensures served[first..first] == []
  {
  }

  lemma CaughtNext(served0: seq<nat>, own: nat, moves: seq<Move>, step: nat, first: nat, before: nat, after: nat, complete: bool)
    requires 0 < step <= |moves| && first <= before <= after <= |Finished(served0, own, moves, step)|
    requires Caught(served0, own, moves, step - 1, first, before, false)
    requires after == if before == |Finished(served0, own, moves, step)| then before else before + 1
    requires complete <==> own in Finished(served0, own, moves, step)[first..after]
    ensures Caught(served0, own, moves, step, first, after, complete)
  {
    hide Finished;
    if !complete {
      var served := Finished(served0, own, moves, step);
      NotPassed(served, first, after, own);
      forall m, i | 0 < m <= step && IsAt(Finished(served0, own, moves, m), first, i, own) ensures after - first > step - m {
        FinishedGrows(served0, own, moves, m, step);
        assert served[i] == own;
      }
    }
  }

  lemma CaughtEnd(served0: seq<nat>, own: nat, moves: seq<Move>, first: nat, lookahead: nat, step: nat, complete: bool)
    requires step <= |moves| && (!complete ==> step == |moves|)
    requires Caught(served0, own, moves, step, first, lookahead, complete)
    requires first <= lookahead <= |Finished(served0, own, moves, step)|
    requires complete <==> own in Finished(served0, own, moves, step)[first..lookahead]
    ensures !complete ==>
      forall m, i :: 0 < m <= |moves| && first <= i < |Finished(served0, own, moves, m)|
                     && Finished(served0, own, moves, m)[i] == own ==>
        |moves| - m < i - first
  {
    hide Finished;
    if !complete {
      var served := Finished(served0, own, moves, step);
      NotPassed(served, first, lookahead, own);
      forall m, i | 0 < m <= |moves| && first <= i < |Finished(served0, own, moves, m)| && Finished(served0, own, moves, m)[i] == own
        ensures |moves| - m < i - first
      {
        assert IsAt(Finished(served0, own, moves, m), first, i, own);
        FinishedGrows(served0, own, moves, m, step);
        assert served[i] == own;
      }
    }
  }

  /** What was acknowledged before is not finished again. */
  lemma NotTwice(requests: nat, served0: seq<nat>, served: seq<nat>, first: nat, lookahead: nat, own: nat)
    requires Served(requests, served) && first <= |served0| && served0 <= served && first <= lookahead <= |served|
    ensures own in served0[..first] ==> own !in served[first..lookahead]
  {
    if own in served0[..first] {
      var i :| 0 <= i < first && served0[i] == own;
      assert served[i] == own;
      forall j | 0 <= j < lookahead - first ensures served[first..lookahead][j] != own {
        assert served[first + j] != own;
      }
    }
  }

  datatype Move = Serve(k: nat) | Acknowledge

  /** What the device has finished after a move; it finishes nothing twice and nothing that was never asked. */
  ghost function Moved(served: seq<nat>, own: nat, move: Move): seq<nat>
  {
    if move.Serve? && move.k <= own && move.k !in served then served + [move.k] else served
  }

  /** What the device has finished after the first m moves. */
  ghost function Finished(served: seq<nat>, own: nat, moves: seq<Move>, m: nat): seq<nat>
    requires m <= |moves|
  {
    if m == 0 then served else Moved(Finished(served, own, moves, m - 1), own, moves[m - 1])
  }

  lemma {:induction false} FinishedGrows(served: seq<nat>, own: nat, moves: seq<Move>, m: nat, n: nat)
    requires m <= n <= |moves|
    ensures Finished(served, own, moves, m) <= Finished(served, own, moves, n)
  {
    if m < n {
      FinishedGrows(served, own, moves, m, n - 1);
    }
  }

  lemma NextFinished(served: seq<nat>, own: nat, moves: seq<Move>, m: nat)
    requires m < |moves|
    ensures Finished(served, own, moves, m + 1) == Moved(Finished(served, own, moves, m), own, moves[m])
  {
  }

  lemma SameWindow(requests: nat, served: seq<nat>, served': seq<nat>, acked: nat)
    requires acked <= |served| <= |served'| && served'[..|served|] == served && InWindow(requests, served, acked)
    ensures InWindow(requests, served', acked)
  {
    assert served'[..acked] == served[..acked];
    forall k | 0 <= k < requests && Live(requests, served', acked, k) ensures requests <= k + WINDOW {
      assert Live(requests, served, acked, k);
    }
  }
}
