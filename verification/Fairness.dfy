/**
 * Fairness of the scheduler (sched.c:43-106 and 162-177, process.c:234 and 436-539) on any number of harts, for a fixed
 * set of processes that are always ready and have the default quantum.  The harts invoke the scheduler and spawn what
 * it gives them in any order.
 */
module Fairness {
  import Arith
  import opened ProcessList
  import opened Sched

  const Q: nat := DEFAULT_QUANTUM * DEFAULT_CONTEXT_TIMER

  /** Nobody asleep, every real process ready and on the default quantum. */
  ghost predicate Fair(w: World)
  {
    && Placed(w) && w.sleeping == []
    && forall p :: p in w.procs && p !in w.idle ==> Ready(w.procs[p].state) && w.procs[p].quantum == DEFAULT_QUANTUM
  }

  ghost predicate Takes(w: World, p: Process)
  {
    p in w.procs && p !in w.idle
  }

  ghost function V(w: World, p: Process): nat { Vruntime(w.procs, p) }

  /** The virtual runtime with the quantum a process on the way to a hart is about to be charged. */
  ghost function U(w: World, p: Process): nat
  {
    V(w, p) + if p in w.transit then Q else 0
  }

  // ---- one step ---------------------------------------------------------------------------

  datatype Turn = Call(hart: nat, time: nat) | Start(hart: nat)

  ghost function EventOf(t: Turn): Event
  {
    match t
    case Call(h, time) => Invoke(h, time)
    case Start(h) => Spawn(h)
  }

  ghost function Events(run: seq<Turn>): seq<Event>
  {
    if run == [] then [] else [EventOf(run[0])] + Events(run[1..])
  }

  /** The processes hart h chooses from: the ready ones, and its own if that is no idle process. */
  ghost function Line(w: World, h: nat): seq<Process>
    requires h < |w.current| && h < |w.idle|
  {
    var p := OnHart(w, h);
    if p == w.idle[h] then w.ready else Inserted(w.procs, w.ready, p)
  }

  /** sched_invoke when nobody sleeps. */
  lemma InvokedIs(w: World, h: nat, time: nat)
    requires Fair(w) && Enabled(w, Invoke(h, time))
    ensures h < |w.idle| && OnHart(w, h) in w.procs
    ensures var p, list := OnHart(w, h), Line(w, h);
      Invoked(w, h, time) == World(w.procs[p := w.procs[p].(onHart := -1)], if list == [] then [] else list[1..], [],
        w.current[h := null], w.transit[h := if list == [] then w.idle[h] else list[0]], w.idle)
  {
    hide Counted, Sorted, Inserted;
    var p := OnHart(w, h);
    assert p == w.idle[h] || p !in w.idle;
    var procs := w.procs[p := w.procs[p].(onHart := -1)];
    PlaceSame(w.procs, procs, w.ready, V(w, p));
    InsertedSame(w.procs, procs, w.ready, p);
    assert Walked(w, time) == w;
  }

  lemma InsertedSame(procs: Procs, procs': Procs, list: seq<Process>, p: Process)
    requires Vruntime(procs', p) == Vruntime(procs, p)
    requires forall x :: x in list ==> Vruntime(procs', x) == Vruntime(procs, x)
    ensures Inserted(procs', list, p) == Inserted(procs, list, p)
  {
    PlaceSame(procs, procs', list, Vruntime(procs, p));
  }

  /** The line is in order, and nobody in it is on the way to a hart. */
  lemma LineFacts(w: World, h: nat)
    requires Fair(w) && h < |w.idle| && w.transit[h] == null
    ensures h < |w.current|
    ensures forall p :: p in Line(w, h) <==> p in w.ready || (p == w.current[h] && p != w.idle[h])
    ensures forall p :: p in Line(w, h) ==> Takes(w, p) && p !in w.transit
    ensures Line(w, h) != [] ==> forall x :: x in Line(w, h) ==> V(w, Line(w, h)[0]) <= V(w, x)
  {
    hide Placed;
    FairShape(w, h);
    ListedOnce(w);
    var p := OnHart(w, h);
    if p != w.idle[h] { HartOnly(w, h, p); }
    LineHolds(w, h);
    forall x | x in Line(w, h) ensures Takes(w, x) && x !in w.transit {
      if x in w.ready { ReadyOnly(w, x); }
    }
    LineSorted(w, h);
    FirstIsLeast(w, Line(w, h));
  }

  lemma LineHolds(w: World, h: nat)
    requires h < |w.current| && h < |w.idle|
    ensures forall x :: x in Line(w, h) <==> x in w.ready || (x == OnHart(w, h) && x != w.idle[h])
  {
    hide Inserted;
    var p := OnHart(w, h);
    InsertedOne(w.procs, w.ready, p);
    forall x: Process ensures x in Inserted(w.procs, w.ready, p) <==> x in w.ready || x == p { }
  }

  lemma LineSorted(w: World, h: nat)
    requires Fair(w) && h < |w.idle| && h < |w.current|
    ensures Sorted(w.procs, Line(w, h))
  {
    hide Sorted, Inserted;
    InsertedSorted(w.procs, w.ready, OnHart(w, h));
  }

  lemma FirstIsLeast(w: World, list: seq<Process>)
    requires Sorted(w.procs, list)
    ensures list != [] ==> forall x :: x in list ==> V(w, list[0]) <= V(w, x)
  {
    forall x | list != [] && x in list ensures V(w, list[0]) <= V(w, x) {
      var k :| 0 <= k < |list| && list[k] == x;
    }
  }

  lemma ReadyOnly(w: World, p: Process)
    requires Placed(w) && p in w.ready
    ensures p !in w.transit && p !in w.current
  {
    hide Sorted;
    ListedOnce(w);
    assert p in Some(w.ready) && Places(w)[p] == 1;
    assert p !in multiset(w.transit) && p !in multiset(w.current);
  }

  /** A hart takes the first in its line, who is one of those with the least virtual runtime, and the rest stay ready. */
  lemma CallFacts(w: World, h: nat, time: nat)
    requires Fair(w) && Enabled(w, Invoke(h, time))
    ensures var w', list := Invoked(w, h, time), Line(w, h);
      && Fair(w') && w'.procs.Keys == w.procs.Keys && w'.idle == w.idle && w'.current == w.current[h := null]
      && (forall p :: V(w', p) == V(w, p))
      && (list == [] ==> w'.transit[h] == w.idle[h] && forall p :: Takes(w, p) ==> U(w', p) == U(w, p))
      && (list != [] ==>
            && w'.transit == w.transit[h := list[0]] && w'.ready == list[1..] && Takes(w, list[0]) && list[0] !in w.transit
            && (forall p :: p in list ==> V(w, list[0]) <= V(w, p))
            && forall p :: Takes(w, p) ==> U(w', p) == if p == list[0] then U(w, p) + Q else U(w, p))
  {
    hide Placed, Inserted, Invoked, Sorted, Line, Walk;
    InvokePlaced(w, h, time);
    InvokedIs(w, h, time);
    LineFacts(w, h);
    var w', list := Invoked(w, h, time), Line(w, h);
    TransitAfter(w, h, w'.transit[h]);
  }

  lemma TransitAfter(w: World, h: nat, x: Process?)
    requires h < |w.transit| && w.transit[h] == null
    ensures forall p: Process :: p in w.transit[h := x] <==> p in w.transit || p == x
  {
    var t := w.transit[h := x];
    forall p: Process | p in w.transit ensures p in t {
      var k :| 0 <= k < |w.transit| && w.transit[k] == p;
      assert t[k] == p;
    }
    assert t[h] == x;
  }

  /** process_spawn charges exactly the quantum that was already counted in U. */
  lemma StartFacts(w: World, h: nat)
    requires Fair(w) && Enabled(w, Spawn(h))
    ensures var w' := Spawned(w, h);
      && Fair(w') && w'.procs.Keys == w.procs.Keys && w'.idle == w.idle && w'.ready == w.ready
      && w'.current == w.current[h := w.transit[h]] && w'.transit == w.transit[h := null]
      && (forall p :: Takes(w, p) ==> U(w', p) == U(w, p))
      && (forall p :: Takes(w, p) && p != w.transit[h] ==> V(w', p) == V(w, p))
  {
    hide Placed, Sorted;
    var p: Process := w.transit[h];
    SpawnPlaced(w, h);
    TransitOnly(w, h, p);
    TransitWithout(w, h);
  }

  lemma TransitWithout(w: World, h: nat)
    requires h < |w.transit| && w.transit[h] != null
    requires forall g :: 0 <= g < |w.transit| && g != h ==> w.transit[g] != w.transit[h]
    ensures forall p: Process :: p in w.transit[h := null] <==> p in w.transit && p != w.transit[h]
  {
    var t := w.transit[h := null];
    forall p: Process | p in w.transit && p != w.transit[h] ensures p in t {
      var k :| 0 <= k < |w.transit| && w.transit[k] == p;
      assert t[k] == p;
    }
  }

  // ---- the wait -----------------------------------------------------------------------------

  /** How often a process at v can still go before one at limit. */
  function Turns(v: nat, limit: nat): nat
  {
    if v <= limit then (limit - v) / Q + 1 else 0
  }

  /** The turns all the others can still take before p. */
  ghost function Rank(w: World, members: seq<Process>, p: Process): nat
  {
    if members == [] then 0
    else (if members[0] == p then 0 else Turns(U(w, members[0]), U(w, p))) + Rank(w, members[1..], p)
  }

  /** Each process other than p with no larger virtual runtime adds its floor((U_p - U_q) / 1000000) + 1 turns. */
  lemma {:induction false} RankMore(w: World, members: seq<Process>, q: Process, p: Process)
    ensures Rank(w, [], p) == 0
    ensures Rank(w, members + [q], p) == Rank(w, members, p)
              + if q == p || U(w, q) > U(w, p) then 0 else (U(w, p) - U(w, q)) / 1_000_000 + 1
  {
    hide U;
    if members == [] {
      assert members + [q] == [q] && [q][1..] == [];
    } else {
      assert (members + [q])[1..] == members[1..] + [q];
      RankMore(w, members[1..], q, p);
    }
  }

  lemma TurnTaken(v: nat, limit: nat)
    requires v <= limit
    ensures Turns(v + Q, limit) == Turns(v, limit) - 1
  {
    var d := limit - v;
    if d >= Q { assert (d - Q) / Q == d / Q - 1; }
  }

  /** A turn for another process takes exactly one off p's rank. */
  lemma {:induction false} RankStep(w: World, w': World, members: seq<Process>, p: Process, h: Process)
    requires NoneTwice(members) && h != p && U(w, h) <= U(w, p) && U(w', p) == U(w, p)
    requires forall x :: x in members ==> U(w', x) == if x == h then U(w, x) + Q else U(w, x)
    ensures Rank(w', members, p) == Rank(w, members, p) - if h in members then 1 else 0
  {
    hide U, Turns;
    if members != [] {
      var rest := members[1..];
      assert members == [members[0]] + rest;
      RankStep(w, w', rest, p, h);
      if members[0] == h {
        TurnTaken(U(w, h), U(w, p));
        assert h !in rest;
      }
    }
  }

  lemma {:induction false} RankSame(w: World, w': World, members: seq<Process>, p: Process)
    requires U(w', p) == U(w, p) && forall x :: x in members ==> U(w', x) == U(w, x)
    ensures Rank(w', members, p) == Rank(w, members, p)
  {
    hide U, Turns;
    if members != [] {
      RankSame(w, w', members[1..], p);
    }
  }

  ghost predicate Enumerates(members: seq<Process>, w: World)
  {
    NoneTwice(members) && (forall p :: p in members ==> Takes(w, p)) && forall p :: p in w.procs && p !in w.idle ==> p in members
  }

  /** The harts act in this order from w. */
  ghost predicate Turning(w: World, run: seq<Turn>)
  {
    Fair(w) && Possible(w, Events(run))
  }

  /** The world after the first n turns. */
  ghost function WorldAt(w: World, run: seq<Turn>, n: nat): World
    requires Turning(w, run) && n <= |run|
    decreases n
  {
    if n == 0 then w else
    NextTurn(w, run);
    WorldAt(Step(w, EventOf(run[0])), run[1..], n - 1)
  }

  lemma NextTurn(w: World, run: seq<Turn>)
    requires Turning(w, run) && run != []
    ensures Fair(w) && Enabled(w, EventOf(run[0])) && Turning(Step(w, EventOf(run[0])), run[1..])
  {
    hide Fair, Enabled, Step;
    assert Events(run)[0] == EventOf(run[0]) && Events(run)[1..] == Events(run[1..]);
    match run[0]
    case Call(h, time) => FairCall(w, h, time);
    case Start(h) => FairStart(w, h);
  }

  lemma FairCall(w: World, h: nat, time: nat)
    requires Fair(w) && Enabled(w, Invoke(h, time))
    ensures Fair(Step(w, Invoke(h, time)))
  {
    hide Fair;
    CallFacts(w, h, time);
  }

  lemma FairStart(w: World, h: nat)
    requires Fair(w) && Enabled(w, Spawn(h))
    ensures Fair(Step(w, Spawn(h)))
  {
    hide Fair;
    StartFacts(w, h);
  }

  /** How many of the first n turns are calls of the scheduler, that is, dispatches. */
  function Dispatches(run: seq<Turn>, n: nat): nat
    requires n <= |run|
  {
    if n == 0 then 0 else (if run[0].Call? then 1 else 0) + Dispatches(run[1..], n - 1)
  }

  /** p is ready, or it is on the hart that calls next. */
  ghost predicate Waits(w: World, run: seq<Turn>, p: Process)
  {
    p in w.ready
    || (run != [] && run[0].Call? && run[0].hart < |w.current| && run[0].hart < |w.idle|
        && w.current[run[0].hart] == p && p != w.idle[run[0].hart])
  }

  /**
   * On any number of harts, whatever their interleaving, a waiting process is dispatched after at most as many other
   * dispatches as the others have turns before it: for each q with no larger virtual runtime,
   * floor((v_p - v_q) / Q) + 1 of them, ties included.  It waits on the ready list until then.
   */
  lemma {:induction false} DispatchedWithin(w: World, members: seq<Process>, p: Process, run: seq<Turn>) returns (n: nat)
    requires Turning(w, run) && Enumerates(members, w) && Waits(w, run, p)
    requires Dispatches(run, |run|) > Rank(w, members, p)
    ensures n < |run| && run[n].Call? && Dispatches(run, n) <= Rank(w, members, p)
    ensures var w' := WorldAt(w, run, n + 1); run[n].hart < |w'.transit| && w'.transit[run[n].hart] == p
    ensures forall i: nat :: 1 <= i <= n ==> p in WorldAt(w, run, i).ready
    decreases |run|
  {
    hide Fair, Placed, Step, Enabled, Rank, U, V, Turning, Line, Enumerates, Invoked, Spawned;
    var rest := run[1..];
    NextTurn(w, run);
    var w' := Step(w, EventOf(run[0]));
    if p != DispatchedBy(w, run[0]) {
      TurnStep(w, members, p, run);
      var m := DispatchedWithin(w', members, p, rest);
      n := m + 1;
      forall i: nat | 1 <= i <= n ensures p in WorldAt(w, run, i).ready {
        assert WorldAt(w, run, i) == WorldAt(w', rest, i - 1);
      }
      assert WorldAt(w, run, n + 1) == WorldAt(w', rest, m + 1);
    } else {
      n := 0;
      DispatchedNow(w, run[0]);
      assert WorldAt(w, run, 1) == WorldAt(w', rest, 0);
    }
  }

  /** Who the turn dispatches, if it dispatches a real process. */
  ghost function DispatchedBy(w: World, t: Turn): Process?
  {
    if t.Call? && t.hart < |w.current| && t.hart < |w.idle| && Line(w, t.hart) != [] then Line(w, t.hart)[0] else null
  }

  lemma DispatchedNow(w: World, t: Turn)
    requires Fair(w) && Enabled(w, EventOf(t)) && DispatchedBy(w, t) != null
    ensures var w' := Step(w, EventOf(t)); t.hart < |w'.transit| && w'.transit[t.hart] == DispatchedBy(w, t)
  {
    hide Fair, Line, Invoked, Spawned;
    CallFacts(w, t.hart, t.time);
  }

  /** A turn that does not dispatch p leaves it ready; a dispatch takes one off its rank, a start takes nothing. */
  lemma TurnStep(w: World, members: seq<Process>, p: Process, run: seq<Turn>)
    requires Turning(w, run) && Enumerates(members, w) && Waits(w, run, p) && run != []
    requires Enabled(w, EventOf(run[0])) && p != DispatchedBy(w, run[0])
    ensures var w' := Step(w, EventOf(run[0]));
      && p in w'.ready && Enumerates(members, w')
      && Rank(w', members, p) == Rank(w, members, p) - if run[0].Call? then 1 else 0
  {
    hide Fair, Rank, U, V, Placed, Line, Invoked, Spawned, NoneTwice, Turns;
    var w' := Step(w, EventOf(run[0]));
    WaiterIsReal(w, run, p);
    match run[0]
    case Call(h, time) =>
      CallFacts(w, h, time);
      FairShape(w, h);
      WaiterInLine(w, run, p);
      LineFacts(w, h);
      var list := Line(w, h);
      var q := list[0];
      assert list == [q] + list[1..];
      NotOnTheWay(w, p);
      NotOnTheWay(w, q);
      RankStep(w, w', members, p, q);
    case Start(h) =>
      StartFacts(w, h);
      RankSame(w, w', members, p);
  }

  lemma FairShape(w: World, h: nat)
    requires Fair(w) && h < |w.idle|
    ensures |w.current| == |w.transit| == |w.idle|
  {
  }

  lemma WaiterIsReal(w: World, run: seq<Turn>, p: Process)
    requires Fair(w) && Waits(w, run, p)
    ensures Takes(w, p)
  {
    hide Sorted;
    ListedOnce(w);
    if p !in w.ready { HartOnly(w, run[0].hart, p); }
  }

  /** A waiter is in the line of whichever hart calls next. */
  lemma WaiterInLine(w: World, run: seq<Turn>, p: Process)
    requires Fair(w) && Waits(w, run, p) && run != [] && run[0].Call? && Enabled(w, EventOf(run[0]))
    ensures p in Line(w, run[0].hart) && Line(w, run[0].hart) != []
  {
    hide Placed, Line;
    FairShape(w, run[0].hart);
    LineFacts(w, run[0].hart);
  }

  lemma NotOnTheWay(w: World, p: Process)
    ensures p !in w.transit ==> U(w, p) == V(w, p)
  {
  }

  // ---- the spread ---------------------------------------------------------------------------

  /** No two processes are further apart in virtual runtime than b. */
  ghost predicate Within(w: World, b: nat)
  {
    forall p, q :: p in w.procs && q in w.procs && p !in w.idle && q !in w.idle ==> V(w, p) <= V(w, q) + b
  }

  /** Nor are they once those on the way to a hart are charged. */
  ghost predicate ChargedWithin(w: World, b: nat)
  {
    forall p, q :: p in w.procs && q in w.procs && p !in w.idle && q !in w.idle ==> U(w, p) <= U(w, q) + b
  }

  /** Nobody is on the way to a hart. */
  ghost predicate Settled(w: World)
  {
    forall h :: 0 <= h < |w.transit| ==> w.transit[h] == null
  }

  lemma SettledCharge(w: World, p: Process)
    requires Settled(w)
    ensures p !in w.transit && U(w, p) == V(w, p)
  {
  }

  /** With one hart every process but the one on the way is in the line. */
  lemma InLine(w: World, p: Process)
    requires Fair(w) && |w.idle| == 1 && w.transit[0] == null && Takes(w, p)
    ensures p in Line(w, 0)
  {
    hide Sorted, Inserted;
    LineFacts(w, 0);
    assert Places(w)[p] == 1;
    assert p in Some(w.ready) || p in w.current || p in w.transit;
  }

  lemma OneHartCall(w: World, h: nat, time: nat, b: nat)
    requires Fair(w) && Enabled(w, Invoke(h, time)) && |w.idle| == 1 && Within(w, b) && b >= Q
    ensures Within(Invoked(w, h, time), b) && ChargedWithin(Invoked(w, h, time), b)
  {
    hide Fair, Invoked, Line, U, V;
    CallFacts(w, h, time);
    FairShape(w, 0);
    assert Settled(w);
    var w' := Invoked(w, h, time);
    forall p, q | Takes(w', p) && Takes(w', q) ensures V(w', p) <= V(w', q) + b && U(w', p) <= U(w', q) + b {
      assert Takes(w, p) && Takes(w, q);
      SettledCharge(w, p);
      SettledCharge(w, q);
      InLine(w, p);
      InLine(w, q);
    }
  }

  lemma OneHartStart(w: World, h: nat, b: nat)
    requires Fair(w) && Enabled(w, Spawn(h)) && |w.idle| == 1 && ChargedWithin(w, b)
    ensures Within(Spawned(w, h), b) && ChargedWithin(Spawned(w, h), b)
  {
    hide Fair, Spawned, U, V;
    StartFacts(w, h);
    FairShape(w, 0);
    var w' := Spawned(w, h);
    assert Settled(w');
    forall p, q | Takes(w', p) && Takes(w', q) ensures V(w', p) <= V(w', q) + b && U(w', p) <= U(w', q) + b {
      assert Takes(w, p) && Takes(w, q);
      SettledCharge(w', p);
      SettledCharge(w', q);
    }
  }

  /** On one hart the spread never grows past the larger of what it was and one quantum, Q = 100 * 10000. */
  lemma {:induction false} SpreadKept(w: World, run: seq<Turn>, n: nat, b: nat)
    requires Turning(w, run) && n <= |run| && |w.idle| == 1 && b >= Q && Within(w, b) && ChargedWithin(w, b)
    ensures Within(WorldAt(w, run, n), b)
    decreases n
  {
    hide Fair, Enabled, Step, Within, ChargedWithin, Turning;
    if n > 0 {
      NextTurn(w, run);
      OneHartTurn(w, run[0], b);
      SpreadKept(Step(w, EventOf(run[0])), run[1..], n - 1, b);
    }
  }

  lemma OneHartTurn(w: World, t: Turn, b: nat)
    requires Fair(w) && Enabled(w, EventOf(t)) && |w.idle| == 1 && b >= Q && Within(w, b) && ChargedWithin(w, b)
    ensures var w' := Step(w, EventOf(t)); Within(w', b) && ChargedWithin(w', b) && |w'.idle| == 1
  {
    hide Fair, Within, ChargedWithin, Invoked, Spawned;
    match t
    case Call(h, time) => OneHartCall(w, h, time, b); CallFacts(w, h, time);
    case Start(h) => OneHartStart(w, h, b); StartFacts(w, h);
  }

  // On two harts one can keep its process while the other goes on calling.

  ghost function Total(w: World, members: seq<Process>): nat
  {
    if members == [] then 0 else V(w, members[0]) + Total(w, members[1..])
  }

  lemma {:induction false} TotalStep(w: World, w': World, members: seq<Process>, h: Process)
    requires NoneTwice(members) && h in members
    requires forall x :: x in members ==> V(w', x) == if x == h then V(w, x) + Q else V(w, x)
    ensures Total(w', members) == Total(w, members) + Q
  {
    hide V;
    var rest := members[1..];
    assert members == [members[0]] + rest;
    if members[0] == h {
      assert h !in rest;
      TotalSame(w, w', rest);
    } else {
      TotalStep(w, w', rest, h);
    }
  }

  lemma {:induction false} TotalSame(w: World, w': World, members: seq<Process>)
    requires forall x :: x in members ==> V(w', x) == V(w, x)
    ensures Total(w', members) == Total(w, members)
  {
    hide V;
    if members != [] {
      TotalSame(w, w', members[1..]);
    }
  }

  /** Runtimes that stay within b of v have a bounded total. */
  lemma {:induction false} TotalBound(w: World, members: seq<Process>, limit: nat)
    requires forall x :: x in members ==> V(w, x) <= limit
    ensures Total(w, members) <= Arith.Times(|members|, limit)
  {
    hide V;
    if members != [] {
      TotalBound(w, members[1..], limit);
    }
  }

  /** Hart g calls and starts what it gets, n times over. */
  ghost function Greedy(g: nat, n: nat): seq<Turn>
  {
    if n == 0 then [] else [Call(g, 0), Start(g)] + Greedy(g, n - 1)
  }

  /** Another hart keeps its process, and hart g has something to run. */
  ghost predicate Hogged(w: World, g: nat, h: nat, kept: Process)
  {
    && Fair(w) && Settled(w) && g < |w.current| && h < |w.current| && g != h && h < |w.idle| && g < |w.idle|
    && w.current[h] == kept && kept != w.idle[h] && Line(w, g) != []
  }

  lemma HoggedTurn(w: World, g: nat, h: nat, kept: Process, members: seq<Process>)
    requires Hogged(w, g, h, kept) && Enumerates(members, w)
    ensures Enabled(w, Invoke(g, 0)) && Enabled(Invoked(w, g, 0), Spawn(g))
    ensures var w' := Spawned(Invoked(w, g, 0), g);
      && Hogged(w', g, h, kept) && Enumerates(members, w') && V(w', kept) == V(w, kept)
      && Total(w', members) == Total(w, members) + Q
  {
    hide Fair, Invoked, Spawned, V, U, Line, NoneTwice;
    FairShape(w, g);
    var w1 := Invoked(w, g, 0);
    CallFacts(w, g, 0);
    LineFacts(w, g);
    StartFacts(w1, g);
    var w', q := Spawned(w1, g), Line(w, g)[0];
    KeptElsewhere(w, g, h, kept);
    forall x | Takes(w, x) ensures V(w', x) == if x == q then V(w, x) + Q else V(w, x) {
      SettledCharge(w, x);
      SettledCharge(w', x);
    }
    TotalStep(w, w', members, q);
    FairShape(w', g);
    LineFacts(w', g);
    NotIdleOf(w, g, q);
    assert q in Line(w', g);
    assert w'.current[h] == w.current[h];
    assert Settled(w');
    assert Enumerates(members, w');
    assert V(w', kept) == V(w, kept);
  }

  lemma NotIdleOf(w: World, g: nat, q: Process)
    requires Takes(w, q) && g < |w.idle|
    ensures q != w.idle[g]
  {
  }

  /** A process on another hart is not in hart g's line. */
  lemma KeptElsewhere(w: World, g: nat, h: nat, kept: Process)
    requires Hogged(w, g, h, kept)
    ensures kept !in Line(w, g) && Takes(w, kept)
  {
    hide Sorted, Inserted;
    LineFacts(w, g);
    HartOnly(w, h, kept);
    assert Places(w)[kept] == 1;
    OncePlaced(w, g, h, kept);
  }

  /** After n rounds the total has grown by n quanta, and the process that was kept has got none of them. */
  lemma {:induction false} GreedyRun(w: World, g: nat, h: nat, kept: Process, members: seq<Process>, n: nat)
    requires Hogged(w, g, h, kept) && Enumerates(members, w)
    ensures Turning(w, Greedy(g, n))
    ensures var w' := WorldAt(w, Greedy(g, n), |Greedy(g, n)|);
      && Enumerates(members, w') && V(w', kept) == V(w, kept)
      && Total(w', members) == Total(w, members) + Arith.Times(n, Q)
    decreases n
  {
    hide Fair, Hogged, Invoked, Spawned, V, Enumerates;
    HoggedIsFair(w, g, h, kept);
    if n > 0 {
      var run, rest := Greedy(g, n), Greedy(g, n - 1);
      HoggedTurn(w, g, h, kept, members);
      var w1 := Invoked(w, g, 0);
      var w2 := Spawned(w1, g);
      GreedyRun(w2, g, h, kept, members, n - 1);
      TwoTurns(w, g, rest);
    }
  }

  lemma HoggedIsFair(w: World, g: nat, h: nat, kept: Process)
    requires Hogged(w, g, h, kept)
    ensures Fair(w)
  {
  }

  lemma TwoTurns(w: World, g: nat, rest: seq<Turn>)
    requires Fair(w) && Enabled(w, Invoke(g, 0)) && Enabled(Invoked(w, g, 0), Spawn(g))
    requires Turning(Spawned(Invoked(w, g, 0), g), rest)
    ensures var run := [Call(g, 0), Start(g)] + rest;
      Turning(w, run) && WorldAt(w, run, |run|) == WorldAt(Spawned(Invoked(w, g, 0), g), rest, |rest|)
  {
    hide Fair, Invoked, Spawned;
    var w1, run := Invoked(w, g, 0), [Call(g, 0), Start(g)] + rest;
    FairCall(w, g, 0);
    assert run[1..][1..] == rest && run[1..] == [Start(g)] + rest;
    assert Events(run[1..]) == [Spawn(g)] + Events(rest);
    assert Events(run) == [Invoke(g, 0)] + Events(run[1..]);
    assert Possible(w1, Events(run[1..]));
    assert WorldAt(w, run, |run|) == WorldAt(w1, run[1..], |run| - 1);
  }

  /** In every interleaving the spread stays within b. */
  ghost predicate AlwaysWithin(w: World, b: nat)
  {
    forall run: seq<Turn>, n: nat :: Turning(w, run) && n <= |run| ==> Within(WorldAt(w, run, n), b)
  }

  /** Hogging exceeds any bound. */
  lemma HoggedDrifts(w: World, g: nat, h: nat, kept: Process, members: seq<Process>, b: nat)
    returns (run: seq<Turn>)
    requires Hogged(w, g, h, kept) && Enumerates(members, w)
    ensures Turning(w, run) && !Within(WorldAt(w, run, |run|), b)
  {
    hide Fair, Hogged, V, WorldAt, Within;
    var limit := V(w, kept) + b;
    var n := Arith.Times(|members|, limit) + 1;
    run := Greedy(g, n);
    GreedyRun(w, g, h, kept, members, n);
    AtLeast(n, Q);
    var w' := WorldAt(w, run, |run|);
    KeptElsewhere(w, g, h, kept);
    assert Takes(w', kept);
    if Within(w', b) {
      WithinLimit(w', members, kept, b);
      TotalBound(w', members, limit);
    }
  }

  lemma WithinLimit(w: World, members: seq<Process>, kept: Process, b: nat)
    requires Within(w, b) && Enumerates(members, w) && Takes(w, kept)
    ensures forall x :: x in members ==> V(w, x) <= V(w, kept) + b
  {
  }

  lemma {:induction false} AtLeast(n: nat, m: nat)
    requires m > 0
    ensures Arith.Times(n, m) >= n
  {
    if n > 0 { AtLeast(n - 1, m); }
  }

  /** Where a process is when nobody is on the way. */
  lemma Somewhere(w: World, p: Process) returns (h: nat)
    requires Fair(w) && Settled(w) && Takes(w, p)
    ensures p in w.ready || (h < |w.current| && w.current[h] == p)
  {
    hide Sorted;
    assert Places(w)[p] == 1;
    h := 0;
    if p !in w.ready {
      assert p !in Some(w.ready) && p !in multiset(w.transit);
      assert p in w.current;
      h :| 0 <= h < |w.current| && w.current[h] == p;
    }
  }

  /** With a process on a hart and another one anywhere, some other hart can hog. */
  lemma CanHog(w: World, h: nat, kept: Process, other: Process) returns (g: nat)
    requires Fair(w) && Settled(w) && |w.idle| >= 2 && h < |w.current| && w.current[h] == kept
    requires Takes(w, kept) && Takes(w, other) && other != kept
    ensures Hogged(w, g, h, kept)
  {
    hide Placed, Line;
    FairShape(w, 0);
    var k := Somewhere(w, other);
    g := if other in w.ready then (if h == 0 then 1 else 0) else k;
    LineFacts(w, g);
    NotIdleOf(w, g, other);
    NotIdleOf(w, h, kept);
  }

  /** On two harts or more, with two processes or more, no bound holds for ever. */
  lemma SpreadGrows(w: World, members: seq<Process>, b: nat) returns (run: seq<Turn>)
    requires Fair(w) && Settled(w) && |w.idle| >= 2 && Enumerates(members, w) && |members| >= 2
    ensures Turning(w, run) && !Within(WorldAt(w, run, |run|), b)
  {
    hide Fair, Hogged, V, U, Within, WorldAt, Invoked, Spawned, Line, Settled;
    assert Takes(w, members[0]) && Takes(w, members[1]) && members[0] != members[1];
    if h: nat :| h < |w.current| && w.current[h] != null && Takes(w, w.current[h]) {
      var kept: Process := w.current[h];
      var g := CanHog(w, h, kept, if members[0] == kept then members[1] else members[0]);
      run := HoggedDrifts(w, g, h, kept, members, b);
    } else {
      var w', kept := FirstStart(w, members);
      var g := CanHog(w', 0, kept, if members[0] == kept then members[1] else members[0]);
      var rest := HoggedDrifts(w', g, 0, kept, members, b);
      TwoTurns(w, 0, rest);
      run := [Call(0, 0), Start(0)] + rest;
    }
  }

  /** When no real process is on a hart, hart 0 takes one. */
  lemma FirstStart(w: World, members: seq<Process>) returns (w': World, kept: Process)
    requires Fair(w) && Settled(w) && |w.idle| >= 2 && Enumerates(members, w) && |members| >= 2
    requires forall h: nat :: h < |w.current| && w.current[h] != null ==> !Takes(w, w.current[h])
    ensures Enabled(w, Invoke(0, 0)) && Enabled(Invoked(w, 0, 0), Spawn(0)) && w' == Spawned(Invoked(w, 0, 0), 0)
    ensures Fair(w') && Settled(w') && Enumerates(members, w') && w'.idle == w.idle
    ensures 0 < |w'.current| && w'.current[0] == kept && Takes(w', kept)
  {
    hide Placed, V, U, Invoked, Spawned, Line, NoneTwice;
    FairShape(w, 0);
    var h := Somewhere(w, members[0]);
    LineFacts(w, 0);
    CallFacts(w, 0, 0);
    kept := Line(w, 0)[0];
    StartFacts(Invoked(w, 0, 0), 0);
    w' := Spawned(Invoked(w, 0, 0), 0);
  }

  /**
   * For two or more processes, the bound max(initial spread, Q) holds in every run exactly when there is one hart.
   */
  lemma SpreadKeptIff(w: World, members: seq<Process>, b: nat)
    requires Fair(w) && Settled(w) && Enumerates(members, w) && |members| >= 2 && |w.idle| >= 1
    requires Within(w, b) && b >= Q
    ensures AlwaysWithin(w, b) <==> |w.idle| == 1
  {
    hide Fair, V, WorldAt, Turning;
    if |w.idle| == 1 {
      ChargedWhenSettled(w, b);
      forall run: seq<Turn>, n: nat | Turning(w, run) && n <= |run| ensures Within(WorldAt(w, run, n), b) {
        SpreadKept(w, run, n, b);
      }
    } else {
      var run := SpreadGrows(w, members, b);
    }
  }

  lemma ChargedWhenSettled(w: World, b: nat)
    requires Settled(w) && Within(w, b)
    ensures ChargedWithin(w, b)
  {
  }

  /** Two processes on two harts, both fresh. */
  ghost function TwoOnTwo(a: Process, b: Process, idle0: Process, idle1: Process): World
  {
    World(map[a := Fresh(0), b := Fresh(1), idle0 := Fresh(-1), idle1 := Fresh(-1)], [], [], [a, b], [null, null], [idle0, idle1])
  }

  function Fresh(hart: int): Proc { Proc(Running, 0, DEFAULT_QUANTUM, hart, 0) }

  lemma TwoOnTwoFair(a: Process, b: Process, idle0: Process, idle1: Process)
    requires NoneTwice([a, b, idle0, idle1])
    ensures Hogged(TwoOnTwo(a, b, idle0, idle1), 0, 1, b) && Enumerates([a, b], TwoOnTwo(a, b, idle0, idle1))
  {
    hide Counted, NoneTwice, Line, IdlePlaced, StatesPlaced;
    var w := TwoOnTwo(a, b, idle0, idle1);
    FourApart(a, b, idle0, idle1);
    TwoOnTwoCounted(a, b, idle0, idle1);
    TwoOnTwoIdle(a, b, idle0, idle1);
    TwoOnTwoStates(a, b, idle0, idle1);
    LineOfTwo(w);
  }

  lemma FourApart(a: Process, b: Process, c: Process, d: Process)
    requires NoneTwice([a, b, c, d])
    ensures a != b && a != c && a != d && b != c && b != d && c != d && NoneTwice([a, b])
  {
    var all := [a, b, c, d];
    assert all[0] == a && all[1] == b && all[2] == c && all[3] == d;
  }

  lemma TwoOnTwoIdle(a: Process, b: Process, idle0: Process, idle1: Process)
    requires idle0 != idle1 && a != idle0 && a != idle1 && b != idle0 && b != idle1
    ensures IdlePlaced(TwoOnTwo(a, b, idle0, idle1))
  {
  }

  lemma TwoOnTwoStates(a: Process, b: Process, idle0: Process, idle1: Process)
    requires a != b && a != idle0 && a != idle1 && b != idle0 && b != idle1
    ensures StatesPlaced(TwoOnTwo(a, b, idle0, idle1))
  {
  }

  lemma LineOfTwo(w: World)
    requires Fair(w) && |w.idle| > 0 && |w.current| > 0 && w.current[0] != null && w.current[0] != w.idle[0] && w.transit[0] == null
    ensures Line(w, 0) != []
  {
    hide Fair, Line;
    LineFacts(w, 0);
    assert w.current[0] in Line(w, 0);
  }

  lemma TwoOnTwoCounted(a: Process, b: Process, idle0: Process, idle1: Process)
    requires NoneTwice([a, b, idle0, idle1])
    ensures Counted(TwoOnTwo(a, b, idle0, idle1), null)
  {
    var w, all := TwoOnTwo(a, b, idle0, idle1), [a, b, idle0, idle1];
    assert all[0] == a && all[1] == b && all[2] == idle0 && all[3] == idle1;
    assert Places(w) == multiset{a, b, null, null};
  }

  lemma TotalOfTwo(w: World, a: Process, b: Process)
    ensures Total(w, [a, b]) == V(w, a) + V(w, b)
  {
    assert [a, b][1..] == [b] && [b][1..] == [];
    assert Total(w, [b]) == V(w, b) + Total(w, []);
  }

  /** Hart 1 keeps b while hart 0 calls twice: a is two quanta ahead, though they started even. */
  lemma TwoHartsDrift(a: Process, b: Process, idle0: Process, idle1: Process)
    requires NoneTwice([a, b, idle0, idle1])
    ensures var w, run := TwoOnTwo(a, b, idle0, idle1), Greedy(0, 2);
      Turning(w, run) && V(WorldAt(w, run, |run|), a) == 2 * Q && V(WorldAt(w, run, |run|), b) == 0
  {
    hide Fair, Turning, WorldAt, Hogged, Enumerates;
    var w, run := TwoOnTwo(a, b, idle0, idle1), Greedy(0, 2);
    TwoOnTwoFair(a, b, idle0, idle1);
    GreedyRun(w, 0, 1, b, [a, b], 2);
    var w' := WorldAt(w, run, |run|);
    TotalOfTwo(w', a, b);
    TotalOfTwo(w, a, b);
    assert V(w, a) == V(w, b) == 0;
    assert Arith.Times(0, Q) == 0 && Arith.Times(1, Q) == Q && Arith.Times(2, Q) == Arith.Times(1, Q) + Q;
  }
}
