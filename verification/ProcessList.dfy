/**
 * Processes and the scheduler's doubly linked lists of them (process.h:40-113, process.c:399-540), sorted by virtual
 * runtime.
 */
module ProcessList {

  datatype State = Dead | Uninit | Running | Sleeping | Waiting | AsyncFree

  class Process {
    var state: State
    var sleepUntil: nat
    var quantum: nat
    var onHart: int
    var vruntime: nat

    constructor (quantum: nat)
      ensures state == Uninit && sleepUntil == 0 && this.quantum == quantum && onHart == -1 && vruntime == 0
    {
      state, sleepUntil, this.quantum, onHart, vruntime := Uninit, 0, quantum, -1, 0;
    }

    method SetState(s: State, ghost all: set<Process>)
      requires this in all
      modifies `state
      ensures this in old(Snapshot(all)) && Snapshot(all) == old(Snapshot(all))[this := old(Snapshot(all))[this].(state := s)]
    {
      state := s;
    }

    method SetHart(h: int, ghost all: set<Process>)
      requires this in all
      modifies `onHart
      ensures this in old(Snapshot(all)) && Snapshot(all) == old(Snapshot(all))[this := old(Snapshot(all))[this].(onHart := h)]
    {
      onHart := h;
    }
  }

  /** A process's fields as a value. */
  datatype Proc = Proc(state: State, sleepUntil: nat, quantum: nat, onHart: int, vruntime: nat)

  type Procs = map<Process, Proc>

  ghost function Snapshot(all: set<Process>): Procs
    reads all
  {
    map p | p in all :: Proc(p.state, p.sleepUntil, p.quantum, p.onHart, p.vruntime)
  }

  function Vruntime(procs: Procs, p: Process): nat
  {
    if p in procs then procs[p].vruntime else 0
  }

  // ---- where a process goes ----------------------------------------------------------

  /** The first position whose process does not have a smaller virtual runtime: ties go in front. */
  ghost function Place(procs: Procs, list: seq<Process>, v: nat): (i: nat)
    ensures i <= |list|
    ensures forall j :: 0 <= j < i ==> Vruntime(procs, list[j]) < v
    ensures i < |list| ==> v <= Vruntime(procs, list[i])
  {
    if list == [] || v <= Vruntime(procs, list[0]) then 0 else 1 + Place(procs, list[1..], v)
  }

  ghost function Inserted(procs: Procs, list: seq<Process>, p: Process): seq<Process>
  {
    var i := Place(procs, list, Vruntime(procs, p));
    list[..i] + [p] + list[i..]
  }

  ghost predicate Sorted(procs: Procs, list: seq<Process>)
  {
    forall i, j :: 0 <= i < j < |list| ==> Vruntime(procs, list[i]) <= Vruntime(procs, list[j])
  }

  lemma {:induction false} PlaceIs(procs: Procs, list: seq<Process>, v: nat, i: nat)
    requires i <= |list| && (forall j :: 0 <= j < i ==> Vruntime(procs, list[j]) < v)
    requires i < |list| ==> v <= Vruntime(procs, list[i])
    ensures Place(procs, list, v) == i
  {
    if i > 0 {
      PlaceIs(procs, list[1..], v, i - 1);
    }
  }

  /** Insertion keeps the list sorted and adds exactly one process. */
  lemma InsertedSorted(procs: Procs, list: seq<Process>, p: Process)
    requires Sorted(procs, list)
    ensures Sorted(procs, Inserted(procs, list, p))
    ensures multiset(Inserted(procs, list, p)) == multiset(list) + multiset{p}
  {
    var i := Place(procs, list, Vruntime(procs, p));
    assert list == list[..i] + list[i..];
    SortedAround(procs, list, i, p);
  }

  lemma SortedAround(procs: Procs, list: seq<Process>, i: nat, p: Process)
    requires Sorted(procs, list) && i <= |list|
    requires forall j :: 0 <= j < i ==> Vruntime(procs, list[j]) <= Vruntime(procs, p)
    requires i < |list| ==> Vruntime(procs, p) <= Vruntime(procs, list[i])
    ensures Sorted(procs, list[..i] + [p] + list[i..])
  {
    var list' := list[..i] + [p] + list[i..];
    forall j, k | 0 <= j < k < |list'| ensures Vruntime(procs, list'[j]) <= Vruntime(procs, list'[k]) {
      var x, y := if j < i then j else j - 1, if k < i then k else k - 1;
      if i < |list| && k > i { assert Vruntime(procs, list[i]) <= Vruntime(procs, list[y]); }
      if j != i && k != i { assert list'[j] == list[x] && list'[k] == list[y]; }
    }
  }

  lemma {:induction false} PlaceSame(procs: Procs, procs': Procs, list: seq<Process>, v: nat)
    requires forall p :: p in list ==> Vruntime(procs', p) == Vruntime(procs, p)
    ensures Place(procs', list, v) == Place(procs, list, v)
  {
    PlaceIs(procs', list, v, Place(procs, list, v));
  }

  ghost predicate Among(c: seq<Process>, all: set<Process>)
  {
    forall p :: p in c ==> p in all
  }

  // ---- the list ------------------------------------------------------------------------

  class Node {
    const p: Process
    var next: Node?
    var prev: Node?

    constructor (p: Process)
      ensures this.p == p
    {
      this.p := p;
    }
  }

  function At(ns: seq<Node>, i: int): Node?
  {
    if 0 <= i < |ns| then ns[i] else null
  }

  ghost predicate Holds(repr: set<Node>, ns: seq<Node>)
  {
    (forall n :: n in ns ==> n in repr) && forall n :: n in repr ==> n in ns
  }

  ghost predicate Distinct(ns: seq<Node>)
  {
    forall i, j :: 0 <= i < j < |ns| ==> ns[i] != ns[j]
  }

  /** A node's links say where it is in the list. */
  ghost predicate InPlace(ns: seq<Node>, i: nat)
    requires i < |ns|
    reads ns
  {
    ns[i].next == At(ns, i + 1) && ns[i].prev == At(ns, i - 1)
  }

  ghost predicate Chain(ns: seq<Node>)
    reads ns
  {
    forall i :: 0 <= i < |ns| ==> InPlace(ns, i)
  }

  ghost function Processes(ns: seq<Node>): (c: seq<Process>)
    ensures |c| == |ns| && forall i :: 0 <= i < |c| ==> c[i] == ns[i].p
  {
    seq(|ns|, i requires 0 <= i < |ns| => ns[i].p)
  }

  lemma SameNode(ns: seq<Node>, i: nat, j: nat)
    requires Distinct(ns) && i < |ns| && j < |ns|
    ensures ns[i] == ns[j] <==> i == j
  {
  }

  /** The links a list has with a node spliced in before position i. */
  ghost predicate Spliced(ns: seq<Node>, x: Node, i: nat)
    requires i <= |ns|
    reads ns, x
  {
    && x !in ns && x.next == At(ns, i) && x.prev == At(ns, i - 1)
    && forall j :: 0 <= j < |ns| ==> SplicedAt(ns, x, i, j)
  }

  ghost predicate SplicedAt(ns: seq<Node>, x: Node, i: nat, j: nat)
    requires j < |ns|
    reads ns
  {
    ns[j].next == (if j + 1 == i then x else At(ns, j + 1)) && ns[j].prev == (if j == i then x else At(ns, j - 1))
  }

  lemma SpliceChain(ns: seq<Node>, x: Node, i: nat)
    requires Distinct(ns) && i <= |ns| && Spliced(ns, x, i)
    ensures Distinct(ns[..i] + [x] + ns[i..]) && Chain(ns[..i] + [x] + ns[i..])
    ensures Processes(ns[..i] + [x] + ns[i..]) == Processes(ns)[..i] + [x.p] + Processes(ns)[i..]
    ensures At(ns[..i] + [x] + ns[i..], 0) == if i == 0 then x else At(ns, 0)
  {
    var ns' := ns[..i] + [x] + ns[i..];
    forall k | 0 <= k < |ns'| ensures InPlace(ns', k) {
      if k != i { assert SplicedAt(ns, x, i, if k < i then k else k - 1); }
    }
  }

  lemma HoldsMore(repr: set<Node>, ns: seq<Node>, x: Node, i: nat)
    requires Holds(repr, ns) && i <= |ns|
    ensures Holds(repr + {x}, ns[..i] + [x] + ns[i..])
  {
    assert ns == ns[..i] + ns[i..];
  }

  lemma HoldsLess(repr: set<Node>, ns: seq<Node>, i: nat)
    requires Holds(repr, ns) && Distinct(ns) && i < |ns|
    ensures Holds(repr - {ns[i]}, ns[..i] + ns[i + 1..])
  {
    assert ns == ns[..i] + [ns[i]] + ns[i + 1..];
  }

  /** The links a list has with node i unlinked. */
  ghost predicate Skipped(ns: seq<Node>, i: nat)
    requires i < |ns|
    reads ns
  {
    forall j :: 0 <= j < |ns| && j != i ==> SkippedAt(ns, i, j)
  }

  ghost predicate SkippedAt(ns: seq<Node>, i: nat, j: nat)
    requires j < |ns|
    reads ns
  {
    && ns[j].next == At(ns, if j + 1 == i then i + 1 else j + 1)
    && ns[j].prev == At(ns, if j == i + 1 then i - 1 else j - 1)
  }

  lemma SkipChain(ns: seq<Node>, i: nat)
    requires Distinct(ns) && i < |ns| && Skipped(ns, i)
    ensures Distinct(ns[..i] + ns[i + 1..]) && Chain(ns[..i] + ns[i + 1..])
    ensures Processes(ns[..i] + ns[i + 1..]) == Processes(ns)[..i] + Processes(ns)[i + 1..]
    ensures At(ns[..i] + ns[i + 1..], 0) == if i == 0 then At(ns, 1) else At(ns, 0)
  {
    var ns' := ns[..i] + ns[i + 1..];
    forall k | 0 <= k < |ns'| ensures InPlace(ns', k) {
      assert SkippedAt(ns, i, if k < i then k else k + 1);
    }
  }

  class List {
    var head: Node?
    ghost var nodes: seq<Node>
    ghost var Repr: set<Node>

    constructor ()
      ensures Valid() && nodes == []
    {
      head, nodes, Repr := null, [], {};
    }

    ghost predicate Valid()
      reads this, Repr
    {
      head == At(nodes, 0) && Holds(Repr, nodes) && Distinct(nodes) && Chain(nodes)
    }

    ghost function Contents(): (c: seq<Process>)
      reads this
      ensures |c| == |nodes|
    {
      Processes(nodes)
    }

    /** process_insert: before the first process with at least p's virtual runtime; a null process is refused. */
    method Insert(p: Process?, ghost all: set<Process>)
      requires Valid() && (p != null ==> p in all) && Among(Contents(), all)
      modifies this, Repr
      ensures Valid() && fresh(Repr - old(Repr))
      ensures Contents() == if p == null then old(Contents()) else Inserted(Snapshot(all), old(Contents()), p)
    {
      hide Distinct, Chain, Inserted, Holds, Snapshot, Among;
      if p == null {
        return;
      }
      ghost var c, ns := Contents(), nodes;
      var start := head;
      var new1 := new Node(p);
      ghost var i;
      if start == null {
        i := 0;
        new1.next, new1.prev := null, null;
        head := new1;
      } else {
        i := Link(new1, start);
      }
      SpliceChain(ns, new1, i);
      HoldsMore(Repr, ns, new1, i);
      nodes := ns[..i] + [new1] + ns[i..];
      Repr := Repr + {new1};
      PlaceHere(all, c, p, i);
    }

    /** The part of process_insert that finds the place in a list that is not empty and sets the links there. */
    method Link(new1: Node, start: Node) returns (ghost i: nat)
      requires Valid() && head == start && new1 !in nodes && |nodes| > 0
      modifies `head, Repr, new1
      ensures i <= |nodes| && Spliced(nodes, new1, i) && head == if i == 0 then new1 else start
      ensures forall j :: 0 <= j < i ==> nodes[j].p.vruntime < new1.p.vruntime
      ensures i < |nodes| ==> new1.p.vruntime <= nodes[i].p.vruntime
    {
      hide Distinct, Chain, Spliced;
      var l: Node? := start;
      i := 0;
      ChainAt(nodes, 0);
      if new1.p.vruntime <= l.p.vruntime {
        Join(new1, null, l, i);
        return;
      }
      l := l.next;
      i := 1;
      while l != null && l.p.vruntime < new1.p.vruntime
        invariant 1 <= i <= |nodes| && l == At(nodes, i)
        invariant forall j :: 0 <= j < i ==> nodes[j].p.vruntime < new1.p.vruntime
        decreases |nodes| - i
        modifies {}
      {
        ChainAt(nodes, i);
        l := l.next;
        i := i + 1;
      }
      if l != null {
        ChainAt(nodes, i);
        Join(new1, l.prev, l, i);
      } else {
        l := start;
        ghost var k := 0;
        while l.next != null
          invariant 0 <= k < |nodes| && l == nodes[k] && l.next == At(nodes, k + 1)
          decreases |nodes| - k
          modifies {}
        {
          l := l.next;
          k := k + 1;
          ChainAt(nodes, k);
        }
        Join(new1, l, null, i);
      }
    }

    /** The links process_insert sets in each of its cases: x goes between two neighbours, or to an end. */
    method Join(x: Node, before: Node?, after: Node?, ghost i: nat)
      requires Valid() && x !in nodes && i <= |nodes| && before == At(nodes, i - 1) && after == At(nodes, i)
      modifies `head, Repr, x
      ensures Spliced(nodes, x, i) && head == if i == 0 then x else old(head)
    {
      hide Distinct, Chain;
      ghost var ns := nodes;
      forall j | 0 <= j < |ns| ensures InPlace(ns, j) { ChainAt(ns, j); }
      if before == null {
        head := x;
      } else {
        before.next := x;
      }
      if after != null {
        after.prev := x;
      }
      x.next := after;
      x.prev := before;
      forall j | 0 <= j < |ns| ensures SplicedAt(ns, x, i, j) {
        assert old(InPlace(ns, j));
        if i > 0 { SameNode(ns, j, i - 1); }
        if i < |ns| { SameNode(ns, j, i); }
      }
    }

    /** process_remove: unlink the node of p; a process that is not in the list is reported and ignored. */
    method Remove(p: Process)
      requires Valid()
      modifies this, Repr
      ensures Valid() && Repr <= old(Repr)
      ensures Contents() == Removed(old(Contents()), p)
    {
      hide Distinct, Chain, Processes, Holds;
      ghost var c, ns := Contents(), nodes;
      var n := head;
      ghost var i := 0;
      while n != null
        invariant 0 <= i <= |ns| && n == At(ns, i) && p !in c[..i]
        decreases |ns| - i
        modifies {}
      {
        ChainAt(ns, i);
        ProcessAt(ns, i);
        if n.p == p {
          break;
        }
        n := n.next;
        i := i + 1;
      }
      RemovedIs(c, p, i);
      if n == null {
        return;
      }
      Bypass(n, i);
      SkipChain(ns, i);
      HoldsLess(Repr, ns, i);
      nodes := ns[..i] + ns[i + 1..];
      Repr := Repr - {n};
    }

    /** The links process_remove sets: the neighbours of n point past it. */
    method Bypass(n: Node, ghost i: nat)
      requires Valid() && i < |nodes| && n == nodes[i]
      modifies `head, Repr
      ensures Skipped(nodes, i) && head == if i == 0 then At(nodes, 1) else old(head)
    {
      hide Distinct, Chain;
      ghost var ns := nodes;
      forall j | 0 <= j < |ns| ensures InPlace(ns, j) { ChainAt(ns, j); }
      assert InPlace(ns, i);
      if n.prev != null {
        n.prev.next := n.next;
      } else {
        head := n.next;
      }
      if n.next != null {
        n.next.prev := n.prev;
      }
      forall j | 0 <= j < |ns| && j != i ensures SkippedAt(ns, i, j) {
        assert old(InPlace(ns, j));
        SameNode(ns, j, i);
        if i > 0 { SameNode(ns, j, i - 1); }
        if i + 1 < |ns| { SameNode(ns, j, i + 1); }
      }
    }

    /** process_remove_lowest: the head's process, or null from an empty list. */
    method RemoveLowest() returns (p: Process?)
      requires Valid()
      modifies this, Repr
      ensures Valid() && Repr <= old(Repr)
      ensures old(Contents()) == [] ==> p == null && Contents() == []
      ensures old(Contents()) != [] ==> p == old(Contents())[0] && Contents() == old(Contents())[1..]
    {
      hide Distinct, Chain, Processes;
      var start := head;
      if start == null {
        return null;
      }
      ghost var ns := nodes;
      forall j | 0 <= j < |ns| ensures InPlace(ns, j) { ChainAt(ns, j); }
      assert InPlace(ns, 0);
      ProcessAt(ns, 0);
      head := start.next;
      if head != null {
        head.prev := null;
      }
      forall j | 0 < j < |ns| ensures SkippedAt(ns, 0, j) {
        assert old(InPlace(ns, j));
        SameNode(ns, j, 1);
      }
      SkipChain(ns, 0);
      HoldsLess(Repr, ns, 0);
      p := start.p;
      assert ns[..0] + ns[1..] == ns[1..];
      nodes := ns[1..];
      Repr := Repr - {start};
    }
  }

  lemma ChainAt(ns: seq<Node>, i: nat)
    requires Chain(ns) && i < |ns|
    ensures InPlace(ns, i)
  {
  }

  lemma ProcessAt(ns: seq<Node>, i: nat)
    requires i < |ns|
    ensures Processes(ns)[i] == ns[i].p
  {
  }

  /** The list without the first occurrence of p. */
  ghost function Removed(c: seq<Process>, p: Process): (r: seq<Process>)
    ensures |r| == if p in c then |c| - 1 else |c|
  {
    if c == [] then [] else if c[0] == p then c[1..] else [c[0]] + Removed(c[1..], p)
  }

  lemma {:induction false} RemovedIs(c: seq<Process>, p: Process, i: nat)
    requires i <= |c| && p !in c[..i] && (i < |c| ==> c[i] == p)
    ensures Removed(c, p) == if i < |c| then c[..i] + c[i + 1..] else c
  {
    if i > 0 {
      var rest := c[1..];
      assert c[0] in c[..i] && rest[..i - 1] == c[1..i];
      assert forall x :: x in c[1..i] ==> x in c[..i];
      RemovedIs(rest, p, i - 1);
      if i < |c| {
        assert rest[i..] == c[i + 1..] && [c[0]] + c[1..i] == c[..i];
        assert [c[0]] + (c[1..i] + c[i + 1..]) == [c[0]] + c[1..i] + c[i + 1..];
      } else {
        assert [c[0]] + rest == c;
      }
    }
  }

  lemma PlaceHere(all: set<Process>, c: seq<Process>, p: Process, i: nat)
    requires i <= |c| && p in all && Among(c, all) && forall j :: 0 <= j < i ==> c[j].vruntime < p.vruntime
    requires i < |c| ==> p.vruntime <= c[i].vruntime
    ensures Inserted(Snapshot(all), c, p) == c[..i] + [p] + c[i..]
  {
    var procs := Snapshot(all);
    assert forall j :: 0 <= j < |c| ==> c[j] in c;
    PlaceIs(procs, c, Vruntime(procs, p), i);
  }
}
