/**
 * The scheduler on N harts (sched.c:43-177, with process.c:150-163 and 227-234, and syscall.c:41-44 and 65-73).
 *
 * A World is everything the scheduler shares.  Each step below is one that runs without interruption: sched_invoke
 * holds sched_mutex up to the point where the chosen process is in transit to its hart, and process_spawn then puts it
 * there; a running process changes its own state before it invokes.  sched_add from the console takes no lock; it is
 * taken for such a step all the same.
 */
module Sched {
  import opened ProcessList

  const DEFAULT_CONTEXT_TIMER: nat := 10000
  const DEFAULT_QUANTUM: nat := 100

  // ---- waking up -----------------------------------------------------------------------

  datatype Lists = Lists(procs: Procs, sleeping: seq<Process>, ready: seq<Process>)

  ghost predicate Expired(procs: Procs, p: Process, time: nat)
  {
    p in procs && procs[p].sleepUntil < time
  }

  /** One process leaves the sleeping list for the ready list. */
  ghost function Woken(l: Lists, p: Process): Lists
    requires p in l.procs
  {
    var procs := l.procs[p := l.procs[p].(state := Running)];
    Lists(procs, Removed(l.sleeping, p), Inserted(procs, l.ready, p))
  }

  /**
   * sched_walk_sleeping_list from position i on.  After every wake-up the walk starts again at the head, and the
   * loop's own step then passes over the head.
   */
  ghost function Walk(l: Lists, i: nat, time: nat): Lists
    decreases |l.sleeping|, |l.sleeping| - i
  {
    if i >= |l.sleeping| then l
    else if Expired(l.procs, l.sleeping[i], time) then
      var l' := Woken(l, l.sleeping[i]);
      if l'.sleeping == [] then l' else Walk(l', 1, time)
    else Walk(l, i + 1, time)
  }

  ghost predicate NoneTwice(list: seq<Process>)
  {
    forall i, j :: 0 <= i < j < |list| ==> list[i] != list[j]
  }

  lemma {:induction false} RemovedFrom(c: seq<Process>, p: Process)
    requires NoneTwice(c)
    ensures NoneTwice(Removed(c, p)) && p !in Removed(c, p)
    ensures forall x :: x in c && x != p ==> x in Removed(c, p)
  {
    if c != [] {
      var rest := c[1..];
      assert c == [c[0]] + rest;
      RemovedFrom(rest, p);
      RemovedAmong(rest, p);
      if c[0] != p {
        OneMore(c[0], Removed(rest, p));
      } else {
        assert p !in rest;
      }
    }
  }

  lemma OneMore(x: Process, list: seq<Process>)
    requires NoneTwice(list) && x !in list
    ensures NoneTwice([x] + list)
  {
  }

  lemma {:induction false} RemovedCount(c: seq<Process>, p: Process)
    ensures multiset(Removed(c, p)) == multiset(c) - multiset{p}
  {
    if c != [] {
      assert c == [c[0]] + c[1..];
      RemovedCount(c[1..], p);
    }
  }

  lemma {:induction false} RemovedAmong(c: seq<Process>, p: Process)
    ensures forall x :: x in Removed(c, p) ==> x in c
  {
    if c != [] {
      RemovedAmong(c[1..], p);
    }
  }

  lemma {:induction false} RemovedSorted(procs: Procs, c: seq<Process>, p: Process)
    requires Sorted(procs, c)
    ensures Sorted(procs, Removed(c, p))
  {
    if c != [] && c[0] != p {
      RemovedSorted(procs, c[1..], p);
      RemovedAmong(c[1..], p);
      SortedFront(procs, c, Removed(c[1..], p));
    }
  }

  lemma SortedFront(procs: Procs, c: seq<Process>, rest: seq<Process>)
    requires c != [] && Sorted(procs, c) && Sorted(procs, rest) && forall x :: x in rest ==> x in c[1..]
    ensures Sorted(procs, [c[0]] + rest)
  {
    forall x | x in rest ensures Vruntime(procs, c[0]) <= Vruntime(procs, x) {
      var k :| 0 <= k < |c[1..]| && c[1..][k] == x;
      assert c[k + 1] == x;
    }
  }

  /** Sorting looks at virtual runtimes only. */
  lemma SortedSame(procs: Procs, procs': Procs, list: seq<Process>)
    requires Sorted(procs, list) && forall p :: p in list ==> Vruntime(procs', p) == Vruntime(procs, p)
    ensures Sorted(procs', list)
  {
  }

  /** What one wake-up does to the two lists. */
  lemma WokenFacts(l: Lists, p: Process)
    requires p in l.procs && p in l.sleeping && NoneTwice(l.sleeping)
    requires Sorted(l.procs, l.sleeping) && Sorted(l.procs, l.ready) && forall x :: x in l.sleeping ==> x in l.procs
    ensures var l' := Woken(l, p);
      && (forall x :: x in l'.sleeping ==> x in l'.procs)
      && multiset(l'.sleeping) == multiset(l.sleeping) - multiset{p} && multiset(l'.ready) == multiset(l.ready) + multiset{p}
      && (forall x :: x in l'.sleeping <==> x in l.sleeping && x != p)
      && NoneTwice(l'.sleeping) && Sorted(l'.procs, l'.sleeping) && Sorted(l'.procs, l'.ready)
  {
    hide Inserted, Removed, Sorted, NoneTwice;
    var procs := l.procs[p := l.procs[p].(state := Running)];
    RemovedFrom(l.sleeping, p);
    RemovedAmong(l.sleeping, p);
    RemovedCount(l.sleeping, p);
    RemovedSorted(l.procs, l.sleeping, p);
    SortedSame(l.procs, procs, Removed(l.sleeping, p));
    SortedSame(l.procs, procs, l.ready);
    InsertedSorted(procs, l.ready, p);
  }

  /** What the whole walk does. */
  lemma {:induction false} WalkFacts(l: Lists, i: nat, time: nat)
    requires NoneTwice(l.sleeping) && Sorted(l.procs, l.sleeping) && Sorted(l.procs, l.ready)
    requires forall p :: p in l.sleeping ==> p in l.procs
    requires forall j :: 0 < j < i && j < |l.sleeping| ==> !Expired(l.procs, l.sleeping[j], time)
    ensures var l' := Walk(l, i, time);
      && multiset(l'.sleeping) + multiset(l'.ready) == multiset(l.sleeping) + multiset(l.ready)
      && NoneTwice(l'.sleeping) && Sorted(l'.procs, l'.sleeping) && Sorted(l'.procs, l'.ready)
      && l'.procs.Keys == l.procs.Keys
      && (forall p :: p in l'.sleeping ==> p in l.sleeping)
      && (forall p :: p in l.procs ==>
            l'.procs[p] == if p in l.sleeping && p !in l'.sleeping then l.procs[p].(state := Running) else l.procs[p])
      && (forall p :: p in l.sleeping && p !in l'.sleeping ==> Expired(l.procs, p, time))
      && (forall j :: 0 < j < |l'.sleeping| ==> !Expired(l'.procs, l'.sleeping[j], time))
    decreases |l.sleeping|, |l.sleeping| - i
  {
    hide Sorted, NoneTwice, Removed, Inserted;
    if i < |l.sleeping| {
      var p := l.sleeping[i];
      if Expired(l.procs, p, time) {
        WokenFacts(l, p);
        var l' := Woken(l, p);
        if l'.sleeping != [] {
          WalkFacts(l', 1, time);
        }
      } else {
        WalkFacts(l, i + 1, time);
      }
    }
  }

  /** A walk from the head wakes at least one process when any has expired. */
  lemma {:induction false} WalkWakes(l: Lists, i: nat, time: nat, k: nat)
    requires NoneTwice(l.sleeping) && Sorted(l.procs, l.sleeping) && Sorted(l.procs, l.ready)
    requires forall p :: p in l.sleeping ==> p in l.procs
    requires i <= k < |l.sleeping| && Expired(l.procs, l.sleeping[k], time)
    requires forall j :: 0 <= j < i ==> !Expired(l.procs, l.sleeping[j], time)
    ensures |Walk(l, i, time).sleeping| < |l.sleeping|
    decreases |l.sleeping| - i
  {
    hide Sorted, NoneTwice, Removed, Inserted;
    if Expired(l.procs, l.sleeping[i], time) {
      WokenFacts(l, l.sleeping[i]);
      var l' := Woken(l, l.sleeping[i]);
      if l'.sleeping != [] {
        WalkFacts(l', 1, time);
        assert |multiset(l'.sleeping)| == |l'.sleeping|;
        NoLonger(Walk(l', 1, time).sleeping, l'.sleeping);
      }
    } else {
      WalkWakes(l, i + 1, time, k);
    }
  }

  lemma {:induction false} NoLonger(a: seq<Process>, b: seq<Process>)
    requires NoneTwice(a) && forall x :: x in a ==> x in b
    ensures |a| <= |b|
    decreases |a|
  {
    if a != [] {
      assert a[0] in b;
      var k :| 0 <= k < |b| && b[k] == a[0];
      var b' := b[..k] + b[k + 1..];
      forall x | x in a[1..] ensures x in b' {
        assert x in a;
        var j :| 0 <= j < |b| && b[j] == x;
        assert x != a[0];
        assert b'[if j < k then j else j - 1] == x;
      }
      NoLonger(a[1..], b');
    }
  }

  /** Once past the head the walk never comes back to it. */
  lemma {:induction false} HeadStays(l: Lists, i: nat, time: nat)
    requires NoneTwice(l.sleeping) && Sorted(l.procs, l.sleeping) && Sorted(l.procs, l.ready)
    requires forall p :: p in l.sleeping ==> p in l.procs
    requires i >= 1 && l.sleeping != []
    ensures Walk(l, i, time).sleeping != [] && Walk(l, i, time).sleeping[0] == l.sleeping[0]
    decreases |l.sleeping|, |l.sleeping| - i
  {
    hide Sorted, NoneTwice, Inserted;
    if i < |l.sleeping| {
      var p := l.sleeping[i];
      if Expired(l.procs, p, time) {
        WokenFacts(l, p);
        HeadOther(l.sleeping, i);
        HeadStays(Woken(l, p), 1, time);
      } else {
        HeadStays(l, i + 1, time);
      }
    }
  }

  lemma HeadOther(c: seq<Process>, i: nat)
    requires NoneTwice(c) && 1 <= i < |c|
    ensures Removed(c, c[i]) != [] && Removed(c, c[i])[0] == c[0]
  {
    assert c[0] != c[i];
  }

  /**
   * The walk leaves an expired process asleep exactly when the first two in the list had both expired; it is the
   * second of them then, now at the head.
   */
  lemma WalkLeaves(l: Lists, time: nat)
    requires NoneTwice(l.sleeping) && Sorted(l.procs, l.sleeping) && Sorted(l.procs, l.ready)
    requires forall p :: p in l.sleeping ==> p in l.procs
    ensures var s, l' := l.sleeping, Walk(l, 0, time);
      && ((exists p :: p in l'.sleeping && Expired(l'.procs, p, time))
          <==> |s| >= 2 && Expired(l.procs, s[0], time) && Expired(l.procs, s[1], time))
      && (|s| >= 2 && Expired(l.procs, s[0], time) && Expired(l.procs, s[1], time) ==>
            l'.sleeping != [] && l'.sleeping[0] == s[1] && Expired(l'.procs, s[1], time))
  {
    hide Sorted, NoneTwice, Inserted;
    var l' := Walk(l, 0, time);
    WalkFacts(l, 0, time);
    if l.sleeping != [] {
      var p := l.sleeping[0];
      if Expired(l.procs, p, time) {
        WokenFacts(l, p);
        var l1 := Woken(l, p);
        assert l1.sleeping == l.sleeping[1..];
        if l1.sleeping != [] {
          HeadStays(l1, 1, time);
          assert l1.sleeping[0] in l.sleeping && l1.sleeping[0] != p;
          assert Walk(l1, 1, time) == l';
        }
      } else {
        HeadStays(l, 1, time);
        assert Walk(l, 1, time) == l';
      }
    }
    if x :| x in l'.sleeping && Expired(l'.procs, x, time) {
      var j :| 0 <= j < |l'.sleeping| && l'.sleeping[j] == x;
      assert j == 0;
    }
  }

  // ---- the world ---------------------------------------------------------------------------

  datatype World = World(procs: Procs, ready: seq<Process>, sleeping: seq<Process>,
                         current: seq<Process?>, transit: seq<Process?>, idle: seq<Process>)

  /** Where processes are: in a list, on a hart, or on the way to one. */
  ghost function Places(w: World): multiset<Process?>
  {
    PlacesOf(w.ready, w.sleeping, w.current, w.transit)
  }

  ghost function PlacesOf(ready: seq<Process>, sleeping: seq<Process>, current: seq<Process?>, transit: seq<Process?>): multiset<Process?>
  {
    multiset(Some(ready)) + multiset(Some(sleeping)) + multiset(current) + multiset(transit)
  }

  ghost function Some(c: seq<Process>): seq<Process?> { c }

  /** Every hart has its idle process, which is on no list and only ever goes to that hart. */
  ghost predicate IdlePlaced(w: World)
  {
    && |w.current| == |w.transit| == |w.idle|
    && (forall h :: 0 <= h < |w.idle| ==> w.idle[h] in w.procs && Ready(w.procs[w.idle[h]].state))
    && (forall h :: 0 <= h < |w.idle| ==> w.idle[h] !in w.ready && w.idle[h] !in w.sleeping)
    && (forall g, h :: 0 <= g < |w.idle| && 0 <= h < |w.idle| && g != h ==>
          w.idle[h] != w.idle[g] && w.current[g] != w.idle[h] && w.transit[g] != w.idle[h])
  }

  predicate Ready(s: State) { s != Sleeping && s != AsyncFree }

  /** What each place says about the process in it. */
  ghost predicate StatesPlaced(w: World)
  {
    && (forall p :: p in w.ready ==> p in w.procs && Ready(w.procs[p].state) && w.procs[p].onHart == -1)
    && (forall p :: p in w.sleeping ==> p in w.procs && w.procs[p].state == Sleeping && w.procs[p].onHart == -1)
    && (forall h :: 0 <= h < |w.current| && w.current[h] != null ==>
          w.current[h] in w.procs && w.procs[w.current[h]].onHart == h)
    && (forall h :: 0 <= h < |w.transit| && w.transit[h] != null ==>
          w.transit[h] in w.procs && Ready(w.procs[w.transit[h]].state))
    && (forall h :: 0 <= h < |w.transit| && h < |w.current| && w.transit[h] != null ==> w.current[h] == null)
    && Sorted(w.procs, w.ready) && Sorted(w.procs, w.sleeping)
  }

  /** Every live process that is no idle process, other than `hole`, has exactly one place; nothing freed has one. */
  ghost predicate Counted(w: World, hole: Process?)
  {
    && (forall p :: p in w.procs && p !in w.idle ==> Places(w)[p] == if p == hole then 0 else 1)
    && (forall p :: p in Places(w) ==> p == null || p in w.procs)
  }

  ghost predicate Placed(w: World)
  {
    IdlePlaced(w) && StatesPlaced(w) && Counted(w, null)
  }

  /** The sleeping list holds exactly the sleeping processes that are not on a hart. */
  lemma SleepersAre(w: World, p: Process)
    requires Placed(w) && p in w.procs && p !in w.idle
    ensures p in w.sleeping <==> w.procs[p].state == Sleeping && w.procs[p].onHart == -1
  {
    assert Places(w)[p] == 1;
    if w.procs[p].state == Sleeping && w.procs[p].onHart == -1 {
      assert p !in w.ready;
      assert forall h :: 0 <= h < |w.current| ==> w.current[h] != p;
      assert p in w.sleeping;
    }
  }

  // ---- the steps -----------------------------------------------------------------------------

  ghost function OnHart(w: World, h: nat): Process
    requires h < |w.current| && h < |w.idle|
  {
    var p: Process? := w.current[h];
    if p == null then w.idle[h] else p
  }

  ghost function Walked(w: World, time: nat): World
  {
    var l := Walk(Lists(w.procs, w.sleeping, w.ready), 0, time);
    w.(procs := l.procs, sleeping := l.sleeping, ready := l.ready)
  }

  /** The hart's process is on no hart now. */
  ghost function TakenOff(w: World, h: nat, p: Process): World
    requires h < |w.current|
  {
    w.(procs := if p in w.procs then w.procs[p := w.procs[p].(onHart := -1)] else w.procs, current := w.current[h := null])
  }

  /** It is freed, goes to sleep, or is ready again, unless it is the hart's idle process. */
  ghost function PutAway(w: World, h: nat, p: Process): World
    requires h < |w.idle|
  {
    if p !in w.procs then w
    else if w.procs[p].state == AsyncFree then w.(procs := w.procs - {p})
    else if w.procs[p].state == Sleeping then w.(sleeping := Inserted(w.procs, w.sleeping, p))
    else if p == w.idle[h] then w
    else w.(ready := Inserted(w.procs, w.ready, p))
  }

  /** The first ready process, or else the idle one, is on its way to the hart. */
  ghost function Dispatched(w: World, h: nat): World
    requires h < |w.idle| && h < |w.transit|
  {
    if w.ready == [] then w.(transit := w.transit[h := w.idle[h]])
    else w.(ready := w.ready[1..], transit := w.transit[h := w.ready[0]])
  }

  /** sched_invoke up to the release of sched_mutex. */
  ghost function Invoked(w: World, h: nat, time: nat): World
    requires h < |w.idle| && h < |w.transit| && h < |w.current|
  {
    var w1 := Walked(w, time);
    var p := OnHart(w1, h);
    Dispatched(PutAway(TakenOff(w1, h, p), h, p), h)
  }

  /** process_spawn for the hart's own process. */
  ghost function Spawned(w: World, h: nat): World
    requires h < |w.current| && h < |w.transit|
  {
    var p: Process? := w.transit[h];
    if p == null || p !in w.procs then w else
    var a := w.procs[p];
    w.(procs := w.procs[p := a.(onHart := h, vruntime := a.vruntime + a.quantum * DEFAULT_CONTEXT_TIMER)],
       current := w.current[h := p], transit := w.transit[h := null])
  }

  /** The process on a hart makes a system call that changes its own state. */
  ghost function Changed(w: World, h: nat, state: State, until: nat): World
    requires h < |w.current|
  {
    var p: Process? := w.current[h];
    if p == null || p !in w.procs then w else
    w.(procs := w.procs[p := w.procs[p].(state := state, sleepUntil := until)])
  }

  /** sched_add of a process nobody knows yet. */
  ghost function Added(w: World, p: Process, a: Proc): World
  {
    var procs := w.procs[p := a];
    w.(procs := procs, ready := Inserted(procs, w.ready, p))
  }

  datatype Event =
    | Invoke(hart: nat, time: nat)
    | Spawn(hart: nat)
    | Sleep(hart: nat, until: nat)
    | Exit(hart: nat)
    | Add(p: Process, proc: Proc)

  /** A hart acts only for itself, and not while its next process is still on the way; the idle process makes no calls. */
  ghost predicate Enabled(w: World, e: Event)
  {
    match e
    case Invoke(h, _) => h < |w.idle| && h < |w.transit| && h < |w.current| && w.transit[h] == null
    case Spawn(h) => h < |w.current| && h < |w.transit| && w.transit[h] != null
    case Sleep(h, _) => h < |w.current| && h < |w.idle| && w.current[h] != null && w.current[h] != w.idle[h]
    case Exit(h) => h < |w.current| && h < |w.idle| && w.current[h] != null && w.current[h] != w.idle[h]
    case Add(p, a) => p !in w.procs && Ready(a.state) && a.onHart == -1
  }

  ghost function Step(w: World, e: Event): World
    requires Enabled(w, e)
  {
    match e
    case Invoke(h, time) => Invoked(w, h, time)
    case Spawn(h) => Spawned(w, h)
    case Sleep(h, until) => Changed(w, h, Sleeping, until)
    case Exit(h) => Changed(w, h, AsyncFree, 0)
    case Add(p, a) => Added(w, p, a)
  }

  // ---- every step keeps every process in its place ------------------------------------------------

  lemma CountTwice<T>(s: seq<T>, i: nat, j: nat)
    requires i < j < |s| && s[i] == s[j]
    ensures multiset(s)[s[i]] >= 2
  {
    assert s == s[..j] + [s[j]] + s[j + 1..];
    assert s[..j][i] == s[i];
    assert s[i] in multiset(s[..j]);
  }

  lemma CountOnce<T>(s: seq<T>)
    requires forall x :: x in s ==> multiset(s)[x] <= 1
    ensures forall i, j :: 0 <= i < j < |s| ==> s[i] != s[j]
  {
    forall i, j | 0 <= i < j < |s| ensures s[i] != s[j] {
      assert s[i] == s[j] ==> multiset(s)[s[i]] >= 2 by {
        if s[i] == s[j] { CountTwice(s, i, j); }
      }
      assert s[i] in s;
    }
  }

  /** A process on a list is no idle process, and is there once. */
  lemma ListedOnce(w: World)
    requires Placed(w)
    ensures NoneTwice(w.sleeping) && NoneTwice(w.ready)
    ensures forall p :: p in w.sleeping || p in w.ready ==> p !in w.idle && p in w.procs
  {
    hide Sorted;
    forall p | p in w.sleeping || p in w.ready ensures p !in w.idle && Places(w)[p] == 1 {
    }
    forall p | p in w.sleeping ensures multiset(w.sleeping)[p] <= 1 { assert Places(w)[p] == 1; }
    forall p | p in w.ready ensures multiset(w.ready)[p] <= 1 { assert Places(w)[p] == 1; }
    CountOnce(w.sleeping);
    CountOnce(w.ready);
  }

  lemma PlacesSame(w: World, w': World)
    requires multiset(w'.sleeping) + multiset(w'.ready) == multiset(w.sleeping) + multiset(w.ready)
    requires w'.current == w.current && w'.transit == w.transit
    ensures Places(w') == Places(w)
  {
    assert multiset(Some(w'.ready)) + multiset(Some(w'.sleeping)) == multiset(w'.sleeping) + multiset(w'.ready);
    assert multiset(Some(w.ready)) + multiset(Some(w.sleeping)) == multiset(w.sleeping) + multiset(w.ready);
  }

  /** What a walk moves, it moves to the ready list. */
  lemma WalkMoves(w: World, w': World, p: Process)
    requires multiset(w'.sleeping) + multiset(w'.ready) == multiset(w.sleeping) + multiset(w.ready)
    requires Places(w)[p] <= 1 && p in w'.ready
    ensures p in w.ready || (p in w.sleeping && p !in w'.sleeping)
  {
    assert (multiset(w'.sleeping) + multiset(w'.ready))[p] == (multiset(w.sleeping) + multiset(w.ready))[p] <= Places(w)[p];
    assert multiset(w'.ready)[p] >= 1;
  }

  lemma WalkPlaced(w: World, time: nat)
    requires Placed(w)
    ensures Placed(Walked(w, time))
  {
    hide Walk, Sorted, NoneTwice, Places;
    ListedOnce(w);
    var l := Lists(w.procs, w.sleeping, w.ready);
    WalkFacts(l, 0, time);
    var w' := Walked(w, time);
    PlacesSame(w, w');
    forall p | p in w'.ready ensures p !in w.idle && p in w.procs && (p in w.ready || (p in w.sleeping && p !in w'.sleeping)) {
      ListedHad(w, w', p);
      WalkMoves(w, w', p);
    }
  }

  lemma ListedHad(w: World, w': World, p: Process)
    requires Placed(w) && p in w'.ready && multiset(w'.sleeping) + multiset(w'.ready) == multiset(w.sleeping) + multiset(w.ready)
    ensures Places(w)[p] <= 1
  {
    hide Sorted;
    assert p in multiset(w.sleeping) + multiset(w.ready);
    assert p in w.sleeping || p in w.ready;
  }

  ghost predicate PlacedBut(w: World, hole: Process)
  {
    IdlePlaced(w) && StatesPlaced(w) && Counted(w, hole) && Places(w)[hole] == 0
    && hole in w.procs && w.procs[hole].onHart == -1
  }

  lemma Exchanged(a: multiset<Process?>, b: multiset<Process?>, x: Process?, y: Process?)
    requires x in b
    ensures a + (b - multiset{x} + multiset{y}) == a + b - multiset{x} + multiset{y}
  {
  }

  /** One place changed. */
  lemma CurrentChanged(w: World, h: nat, x: Process?)
    requires h < |w.current|
    ensures PlacesOf(w.ready, w.sleeping, w.current[h := x], w.transit) == Places(w) - multiset{w.current[h]} + multiset{x}
  {
    assert w.current[h] in w.current;
    var rest := multiset(Some(w.ready)) + multiset(Some(w.sleeping)) + multiset(w.transit);
    Exchanged(rest, multiset(w.current), w.current[h], x);
    assert Places(w) == rest + multiset(w.current);
    assert PlacesOf(w.ready, w.sleeping, w.current[h := x], w.transit) == rest + multiset(w.current[h := x]);
  }

  lemma TransitChanged(w: World, h: nat, x: Process?)
    requires h < |w.transit|
    ensures PlacesOf(w.ready, w.sleeping, w.current, w.transit[h := x]) == Places(w) - multiset{w.transit[h]} + multiset{x}
  {
    assert w.transit[h] in w.transit;
    Exchanged(multiset(Some(w.ready)) + multiset(Some(w.sleeping)) + multiset(w.current), multiset(w.transit), w.transit[h], x);
  }

  lemma ReadyLess(w: World)
    requires w.ready != []
    ensures Places(w) == PlacesOf(w.ready[1..], w.sleeping, w.current, w.transit) + multiset{w.ready[0]}
  {
    assert Some(w.ready) == [w.ready[0]] + Some(w.ready[1..]);
    var rest := multiset(Some(w.sleeping)) + multiset(w.current) + multiset(w.transit);
    assert Places(w) == multiset(Some(w.ready)) + rest;
    assert PlacesOf(w.ready[1..], w.sleeping, w.current, w.transit) == multiset(Some(w.ready[1..])) + rest;
    assert multiset(Some(w.ready)) == multiset{w.ready[0]} + multiset(Some(w.ready[1..]));
  }

  lemma ListMore(w: World, procs: Procs, p: Process)
    ensures PlacesOf(Inserted(procs, w.ready, p), w.sleeping, w.current, w.transit) == Places(w) + multiset{p}
    ensures PlacesOf(w.ready, Inserted(procs, w.sleeping, p), w.current, w.transit) == Places(w) + multiset{p}
  {
    InsertedOne(procs, w.ready, p);
    InsertedOne(procs, w.sleeping, p);
    Rearranged(multiset(Some(w.ready)), multiset(Some(w.sleeping)), multiset(w.current), multiset(w.transit), p);
  }

  lemma Rearranged(a: multiset<Process?>, b: multiset<Process?>, c: multiset<Process?>, d: multiset<Process?>, p: Process)
    ensures a + multiset{p} + b + c + d == a + b + c + d + multiset{p}
    ensures a + (b + multiset{p}) + c + d == a + b + c + d + multiset{p}
  {
  }

  lemma InsertedOne(procs: Procs, list: seq<Process>, p: Process)
    ensures multiset(Some(Inserted(procs, list, p))) == multiset(Some(list)) + multiset{p}
    ensures forall x :: x in Inserted(procs, list, p) <==> x in list || x == p
  {
    var i := Place(procs, list, Vruntime(procs, p));
    assert list == list[..i] + list[i..];
    assert Some(list) == Some(list[..i]) + Some(list[i..]);
    assert Some(Inserted(procs, list, p)) == Some(list[..i]) + [p] + Some(list[i..]);
  }

  // ---- sched_invoke ----------------------------------------------------------------------------

  lemma TakenOffPlaced(w: World, h: nat)
    requires Placed(w) && h < |w.idle| && w.transit[h] == null
    ensures var p := OnHart(w, h); PlacedBut(TakenOff(w, h, p), p) && (p in w.idle ==> p == w.idle[h])
  {
    hide Sorted, PlacesOf;
    var p := OnHart(w, h);
    var w' := TakenOff(w, h, p);
    CurrentChanged(w, h, null);
    assert p in w.procs;
    NowhereElse(w, h);
    SortedSame(w.procs, w'.procs, w.ready);
    SortedSame(w.procs, w'.procs, w.sleeping);
    TakenOffParts(w, h, p);
  }

  lemma TakenOffParts(w: World, h: nat, p: Process)
    requires Placed(w) && h < |w.idle| && w.transit[h] == null && p == OnHart(w, h) && p in w.procs
    requires p !in w.ready && p !in w.sleeping && (p in w.idle ==> p == w.idle[h])
    requires forall g :: 0 <= g < |w.current| && g != h ==> w.current[g] != p
    requires forall g :: 0 <= g < |w.transit| ==> w.transit[g] != p
    requires Sorted(TakenOff(w, h, p).procs, w.ready) && Sorted(TakenOff(w, h, p).procs, w.sleeping)
    ensures IdlePlaced(TakenOff(w, h, p)) && StatesPlaced(TakenOff(w, h, p))
  {
    hide Sorted, Places;
  }

  /** The process on a hart has no other place. */
  lemma NowhereElse(w: World, h: nat)
    requires Placed(w) && h < |w.idle| && w.transit[h] == null
    ensures var p := OnHart(w, h);
      && p !in w.ready && p !in w.sleeping && (p in w.idle ==> p == w.idle[h])
      && (forall g :: 0 <= g < |w.current| && g != h ==> w.current[g] != p)
      && (forall g :: 0 <= g < |w.transit| ==> w.transit[g] != p)
      && (Places(w) - multiset{w.current[h]} + multiset{null})[p] == 0
  {
    hide Sorted;
    var p := OnHart(w, h);
    if p in w.idle {
      var k :| 0 <= k < |w.idle| && w.idle[k] == p;
      assert k == h;
      IdleElsewhere(w, h);
    } else {
      assert w.current[h] == p && Places(w)[p] == 1;
      assert p in multiset(w.current);
      forall g | 0 <= g < |w.current| && g != h ensures w.current[g] != p { OncePlaced(w, g, h, p); }
      forall g | 0 <= g < |w.transit| ensures w.transit[g] != p { assert w.transit[g] in multiset(w.transit); }
    }
  }

  lemma OncePlaced(w: World, g: nat, h: nat, p: Process)
    requires g < |w.current| && h < |w.current| && g != h && w.current[h] == p && Places(w)[p] == 1
    ensures w.current[g] != p
  {
    assert w.current[g] == p ==> multiset(w.current)[p] >= 2 by {
      if w.current[g] == p {
        if g < h { CountTwice(w.current, g, h); } else { CountTwice(w.current, h, g); }
      }
    }
  }

  lemma IdleElsewhere(w: World, h: nat)
    requires IdlePlaced(w) && h < |w.idle| && w.transit[h] == null
    ensures (Places(w) - multiset{w.current[h]} + multiset{null})[w.idle[h]] == 0
  {
    CurrentChanged(w, h, null);
    var p := w.idle[h];
    assert p !in w.current[h := null];
    assert p !in w.transit;
    assert p !in Some(w.ready) && p !in Some(w.sleeping);
  }

  lemma AbsentFrom(w: World, p: Process)
    requires Places(w)[p] == 0
    ensures p !in w.ready && p !in w.sleeping && p !in w.current && p !in w.transit
  {
    assert p !in Some(w.ready) && p !in Some(w.sleeping);
  }

  lemma FreedPlaced(w: World, h: nat, p: Process)
    requires PlacedBut(w, p) && h < |w.idle| && (p in w.idle ==> p == w.idle[h]) && w.procs[p].state == AsyncFree
    ensures Placed(PutAway(w, h, p)) && p !in PutAway(w, h, p).procs && Places(PutAway(w, h, p))[p] == 0
  {
    hide Sorted, PlacesOf;
    var w' := PutAway(w, h, p);
    AbsentFrom(w, p);
    assert p !in w.idle;
    SortedSame(w.procs, w'.procs, w.ready);
    SortedSame(w.procs, w'.procs, w.sleeping);
    assert Places(w') == Places(w);
  }

  lemma ListedPlaced(w: World, h: nat, p: Process)
    requires PlacedBut(w, p) && h < |w.idle| && p !in w.idle && w.procs[p].state != AsyncFree
    ensures Placed(PutAway(w, h, p))
  {
    hide Sorted, PlacesOf, Inserted;
    ListMore(w, w.procs, p);
    InsertedOne(w.procs, w.sleeping, p);
    InsertedOne(w.procs, w.ready, p);
    InsertedSorted(w.procs, w.sleeping, p);
    InsertedSorted(w.procs, w.ready, p);
    var w' := PutAway(w, h, p);
    assert Places(w') == Places(w) + multiset{p};
    assert IdlePlaced(w');
    assert StatesPlaced(w');
  }

  lemma PutAwayPlaced(w: World, h: nat, p: Process)
    requires PlacedBut(w, p) && h < |w.idle| && (p in w.idle ==> p == w.idle[h])
    ensures Placed(PutAway(w, h, p))
  {
    hide Sorted, PlacesOf, Inserted;
    if w.procs[p].state == AsyncFree {
      FreedPlaced(w, h, p);
    } else if p !in w.idle {
      ListedPlaced(w, h, p);
    }
  }

  lemma DispatchPlaced(w: World, h: nat)
    requires Placed(w) && h < |w.idle| && w.current[h] == null && w.transit[h] == null
    ensures Placed(Dispatched(w, h))
  {
    if w.ready == [] {
      DispatchIdle(w, h);
    } else {
      DispatchReady(w, h);
    }
  }

  lemma DispatchIdle(w: World, h: nat)
    requires Placed(w) && h < |w.idle| && w.current[h] == null && w.transit[h] == null && w.ready == []
    ensures Placed(Dispatched(w, h))
  {
    hide Sorted, PlacesOf;
    TransitChanged(w, h, w.idle[h]);
    var w' := Dispatched(w, h);
    assert IdlePlaced(w');
    assert StatesPlaced(w');
  }

  lemma DispatchReady(w: World, h: nat)
    requires Placed(w) && h < |w.idle| && w.current[h] == null && w.transit[h] == null && w.ready != []
    ensures Placed(Dispatched(w, h))
  {
    hide Sorted, PlacesOf;
    ListedOnce(w);
    var w1 := w.(ready := w.ready[1..]);
    ReadyLess(w);
    TransitChanged(w1, h, w.ready[0]);
    assert w.ready[0] in w.ready;
    SortedTail(w.procs, w.ready);
    assert forall x :: x in w.ready[1..] ==> x in w.ready;
    var w' := Dispatched(w, h);
    assert IdlePlaced(w');
    assert StatesPlaced(w');
  }

  lemma SortedTail(procs: Procs, list: seq<Process>)
    requires Sorted(procs, list) && list != []
    ensures Sorted(procs, list[1..])
  {
  }

  /** sched_invoke keeps every process in exactly one place; a process that asked to be freed is nowhere. */
  lemma InvokePlaced(w: World, h: nat, time: nat)
    requires Placed(w) && Enabled(w, Invoke(h, time))
    ensures Placed(Invoked(w, h, time))
  {
    hide Placed, PlacedBut, Walk, IdlePlaced, StatesPlaced, Counted;
    WalkPlaced(w, time);
    var w1 := Walked(w, time);
    Shape(w1);
    var p := OnHart(w1, h);
    TakenOffPlaced(w1, h);
    var w2 := TakenOff(w1, h, p);
    PutAwayPlaced(w2, h, p);
    Shape(w2);
    DispatchPlaced(PutAway(w2, h, p), h);
  }

  lemma Shape(w: World)
    ensures Placed(w) ==> |w.current| == |w.transit| == |w.idle|
    ensures forall p :: p in w.idle && PlacedBut(w, p) ==> |w.current| == |w.transit| == |w.idle|
  {
  }

  // ---- the other steps ----------------------------------------------------------------------------

  lemma SpawnPlaced(w: World, h: nat)
    requires Placed(w) && Enabled(w, Spawn(h))
    ensures Placed(Spawned(w, h))
    ensures Spawned(w, h).current == w.current[h := w.transit[h]] && Spawned(w, h).transit == w.transit[h := null]
  {
    hide Sorted, PlacesOf;
    var p: Process? := w.transit[h];
    var w' := Spawned(w, h);
    TransitOnly(w, h, p);
    CurrentChanged(w, h, p);
    TransitChanged(w.(current := w.current[h := p]), h, null);
    SortedSame(w.procs, w'.procs, w.ready);
    SortedSame(w.procs, w'.procs, w.sleeping);
    assert Places(w') == Places(w) - multiset{w.current[h]} + multiset{p} - multiset{p} + multiset{null};
    assert IdlePlaced(w');
    assert StatesPlaced(w');
  }

  /** A process on the way to a hart has no other place. */
  lemma TransitOnly(w: World, h: nat, p: Process)
    requires Placed(w) && h < |w.transit| && w.transit[h] == p
    ensures p in w.procs && p !in w.ready && p !in w.sleeping && w.current[h] == null
    ensures forall g :: 0 <= g < |w.transit| && g != h ==> w.transit[g] != p
    ensures forall g :: 0 <= g < |w.current| ==> w.current[g] != p
  {
    hide Sorted;
    if p in w.idle {
      var k :| 0 <= k < |w.idle| && w.idle[k] == p;
      assert k == h;
    } else {
      assert Places(w)[p] == 1 && p in multiset(w.transit);
      forall g | 0 <= g < |w.transit| && g != h ensures w.transit[g] != p { OnceOnTheWay(w, g, h, p); }
      forall g | 0 <= g < |w.current| ensures w.current[g] != p { assert w.current[g] in multiset(w.current); }
    }
  }

  lemma OnceOnTheWay(w: World, g: nat, h: nat, p: Process)
    requires g < |w.transit| && h < |w.transit| && g != h && w.transit[h] == p && Places(w)[p] == 1
    ensures w.transit[g] != p
  {
    assert w.transit[g] == p ==> multiset(w.transit)[p] >= 2 by {
      if w.transit[g] == p {
        if g < h { CountTwice(w.transit, g, h); } else { CountTwice(w.transit, h, g); }
      }
    }
  }

  lemma ChangePlaced(w: World, h: nat, state: State, until: nat)
    requires Placed(w) && h < |w.current| && w.current[h] != null && w.current[h] != w.idle[h]
    ensures Placed(Changed(w, h, state, until))
    ensures w.current[h] in w.procs
    ensures var p: Process := w.current[h];
      Changed(w, h, state, until) == w.(procs := w.procs[p := w.procs[p].(state := state, sleepUntil := until)])
  {
    hide Sorted, PlacesOf;
    var w' := Changed(w, h, state, until);
    var p: Process? := w.current[h];
    HartOnly(w, h, p);
    SortedSame(w.procs, w'.procs, w.ready);
    SortedSame(w.procs, w'.procs, w.sleeping);
    assert Places(w') == Places(w);
    assert IdlePlaced(w');
    assert StatesPlaced(w');
  }

  lemma HartOnly(w: World, h: nat, p: Process)
    requires Placed(w) && h < |w.current| && w.current[h] == p && p != w.idle[h]
    ensures p in w.procs && p !in w.idle && p !in w.ready && p !in w.sleeping && p !in w.transit
  {
    hide Sorted;
    assert p !in w.idle;
    assert Places(w)[p] == 1 && p in multiset(w.current);
    assert p !in Some(w.ready) && p !in Some(w.sleeping);
  }

  lemma AddPlaced(w: World, p: Process, a: Proc)
    requires Placed(w) && Enabled(w, Add(p, a))
    ensures Placed(Added(w, p, a))
    ensures Added(w, p, a) == w.(procs := w.procs[p := a], ready := Added(w, p, a).ready)
    ensures forall x :: x in Added(w, p, a).ready <==> x in w.ready || x == p
  {
    hide Sorted, PlacesOf, Inserted;
    var w' := Added(w, p, a);
    ListMore(w, w'.procs, p);
    InsertedOne(w'.procs, w.ready, p);
    SortedSame(w.procs, w'.procs, w.ready);
    SortedSame(w.procs, w'.procs, w.sleeping);
    InsertedSorted(w'.procs, w.ready, p);
    assert Places(w)[p] == 0 && Places(w') == Places(w) + multiset{p};
    assert IdlePlaced(w');
    assert StatesPlaced(w');
  }

  lemma StepPlaced(w: World, e: Event)
    requires Placed(w) && Enabled(w, e)
    ensures Placed(Step(w, e))
  {
    hide Placed;
    match e
    case Invoke(h, time) => InvokePlaced(w, h, time);
    case Spawn(h) => SpawnPlaced(w, h);
    case Sleep(h, until) => Shape(w); ChangePlaced(w, h, Sleeping, until);
    case Exit(h) => Shape(w); ChangePlaced(w, h, AsyncFree, 0);
    case Add(p, a) => AddPlaced(w, p, a);
  }

  // ---- whole runs -----------------------------------------------------------------------------------

  /** The world before anything ran: idle processes are on their harts, except hart 0's (sched_init). */
  ghost predicate Booted(w: World)
  {
    && |w.current| == |w.transit| == |w.idle| && w.ready == [] && w.sleeping == []
    && (forall p :: p in w.procs ==> p in w.idle) && (forall p :: p in w.idle ==> p in w.procs)
    && (forall h :: 0 <= h < |w.idle| ==> Ready(w.procs[w.idle[h]].state) && w.transit[h] == null)
    && (forall g, h :: 0 <= g < h < |w.idle| ==> w.idle[g] != w.idle[h])
    && (forall h :: 0 <= h < |w.idle| ==>
          w.current[h] == null || (w.current[h] == w.idle[h] && w.procs[w.idle[h]].onHart == h))
  }

  lemma BootPlaced(w: World)
    requires Booted(w)
    ensures Placed(w)
  {
    hide Sorted, PlacesOf;
    BootCounted(w);
    SortedNone(w.procs);
    assert IdlePlaced(w);
    assert StatesPlaced(w);
  }

  lemma BootCounted(w: World)
    requires Booted(w)
    ensures Counted(w, null)
  {
    forall p | p in Places(w) ensures p == null || p in w.procs {
      assert p in w.current || p in w.transit;
    }
  }

  lemma SortedNone(procs: Procs)
    ensures Sorted(procs, [])
  {
  }

  /** The events of a run, each enabled when its turn comes. */
  ghost predicate Possible(w: World, run: seq<Event>)
    decreases |run|
  {
    run != [] ==> Enabled(w, run[0]) && Possible(Step(w, run[0]), run[1..])
  }

  ghost function After(w: World, run: seq<Event>): World
    requires Possible(w, run)
    decreases |run|
  {
    if run == [] then w else After(Step(w, run[0]), run[1..])
  }

  /** In every interleaving of any number of harts every process stays in exactly one place. */
  lemma {:induction false} RunPlaced(w: World, run: seq<Event>)
    requires Placed(w) && Possible(w, run)
    ensures Placed(After(w, run))
    decreases |run|
  {
    hide Placed, Enabled, Step;
    if run != [] {
      StepPlaced(w, run[0]);
      RunPlaced(Step(w, run[0]), run[1..]);
    }
  }

  /** A process that asked to be freed is, once its hart invokes the scheduler, no longer anywhere. */
  lemma InvokeFrees(w: World, h: nat, time: nat)
    requires Placed(w) && Enabled(w, Invoke(h, time)) && w.current[h] != null && w.current[h] != w.idle[h]
    requires w.current[h] in w.procs && w.procs[w.current[h]].state == AsyncFree
    ensures w.current[h] !in Invoked(w, h, time).procs && w.current[h] !in Places(Invoked(w, h, time))
  {
    hide Sorted, PlacesOf, Walk, NoneTwice;
    InvokePlaced(w, h, time);
    ListedOnce(w);
    WalkFacts(Lists(w.procs, w.sleeping, w.ready), 0, time);
    HartOnly(w, h, w.current[h]);
    assert OnHart(Walked(w, time), h) == w.current[h];
  }

  // ---- whom sched_invoke picks ------------------------------------------------------------------------

  /** p's time is over, and it is not the one expired sleeper that a walk passes by. */
  ghost predicate Wakes(w: World, time: nat, p: Process)
  {
    && p in w.sleeping && p in w.procs && w.procs[p].sleepUntil < time
    && !(|w.sleeping| >= 2 && p == w.sleeping[1] && w.sleeping[0] in w.procs && w.procs[w.sleeping[0]].sleepUntil < time)
  }

  /** What hart h chooses from: the ready, the woken, and its own process if it neither idles, sleeps nor is to be freed. */
  ghost predicate InLine(w: World, h: nat, time: nat, p: Process)
    requires h < |w.current| && h < |w.idle|
  {
    || p in w.ready
    || Wakes(w, time, p)
    || (p == w.current[h] && p != w.idle[h] && p in w.procs && w.procs[p].state != Sleeping && w.procs[p].state != AsyncFree)
  }

  /** The hart's own process, the idle one when there is none. */
  predicate OwnOf(w: World, h: nat, p: Process)
    requires h < |w.current| && h < |w.idle|
  {
    w.current[h] == p || (w.current[h] == null && w.idle[h] == p)
  }

  /** The line is served by virtual runtime: the idle process when nobody is in it, else one with the least of all. */
  ghost predicate Serves(w: World, h: nat, time: nat, next: Process?, w': World)
    requires h < |w.current| && h < |w.idle|
  {
    && (next == w.idle[h] ==> forall p :: p in w.procs ==> !InLine(w, h, time, p))
    && (next != w.idle[h] ==>
          && next != null && next in w.procs && InLine(w, h, time, next)
          && forall p :: p in w.procs && InLine(w, h, time, p) ==> w.procs[next].vruntime <= w.procs[p].vruntime)
    && (forall p :: p in w.procs ==> (p in w'.ready <==> InLine(w, h, time, p) && p != next))
  }

  /** Who sleeps, and what is known about each process, after hart h has invoked the scheduler. */
  ghost predicate Keeps(w: World, h: nat, time: nat, w': World)
    requires h < |w.current| && h < |w.idle|
  {
    && (forall p :: p in w.procs ==>
          (p in w'.sleeping <==> (p in w.sleeping && !Wakes(w, time, p)) || (p == w.current[h] && w.procs[p].state == Sleeping)))
    && (forall p :: p in w.procs ==> (p in w'.procs <==> !(p == w.current[h] && w.procs[p].state == AsyncFree)))
    && w'.procs.Keys <= w.procs.Keys
    && (forall p :: p in w'.procs ==>
          w'.procs[p] == Proc(if Wakes(w, time, p) then Running else w.procs[p].state, w.procs[p].sleepUntil,
                              w.procs[p].quantum, if OwnOf(w, h, p) then -1 else w.procs[p].onHart, w.procs[p].vruntime))
  }

  /** The walk wakes exactly those. */
  lemma WalkWho(w: World, time: nat)
    requires Placed(w)
    ensures var w' := Walked(w, time);
      && w'.current == w.current && w'.transit == w.transit && w'.idle == w.idle && w'.procs.Keys == w.procs.Keys
      && (forall p :: p in w.procs ==>
            && (p in w'.sleeping <==> p in w.sleeping && !Wakes(w, time, p))
            && (p in w'.ready <==> p in w.ready || Wakes(w, time, p))
            && w'.procs[p] == if Wakes(w, time, p) then w.procs[p].(state := Running) else w.procs[p])
  {
    hide Walk, Sorted, NoneTwice, Placed, Counted, Places;
    PlacedParts(w);
    ListedOnce(w);
    var l, l' := Lists(w.procs, w.sleeping, w.ready), Walk(Lists(w.procs, w.sleeping, w.ready), 0, time);
    WalkFacts(l, 0, time);
    forall p | p in w.sleeping ensures p in l'.sleeping <==> !Wakes(w, time, p) {
      StaysAsleep(w, time, p);
    }
    forall p | p in w.procs ensures p in l'.ready <==> p in w.ready || (p in w.sleeping && p !in l'.sleeping) {
      ReadyAfterWalk(w, l', p);
    }
  }

  lemma PlacedParts(w: World)
    requires Placed(w)
    ensures IdlePlaced(w) && StatesPlaced(w)
    ensures Sorted(w.procs, w.ready) && Sorted(w.procs, w.sleeping)
    ensures forall p :: p in w.sleeping || p in w.ready ==> p in w.procs && Places(w)[p] == 1
  {
    hide Sorted, Places;
    ListedOnce(w);
  }

  lemma StaysAsleep(w: World, time: nat, p: Process)
    requires Placed(w) && p in w.sleeping
    ensures p in Walk(Lists(w.procs, w.sleeping, w.ready), 0, time).sleeping <==> !Wakes(w, time, p)
  {
    hide Walk, Sorted, Counted, Places;
    ListedOnce(w);
    var l := Lists(w.procs, w.sleeping, w.ready);
    var l' := Walk(l, 0, time);
    WalkFacts(l, 0, time);
    WalkLeaves(l, time);
    if p in l'.sleeping && Expired(l.procs, p, time) {
      var j :| 0 <= j < |l'.sleeping| && l'.sleeping[j] == p;
      assert j == 0;
    }
  }

  lemma ReadyAfterWalk(w: World, l': Lists, p: Process)
    requires Placed(w) && p in w.procs
    requires multiset(l'.sleeping) + multiset(l'.ready) == multiset(w.sleeping) + multiset(w.ready)
    requires forall x :: x in l'.sleeping ==> x in w.sleeping
    requires NoneTwice(w.sleeping) && NoneTwice(w.ready) && NoneTwice(l'.sleeping)
    ensures p in l'.ready <==> p in w.ready || (p in w.sleeping && p !in l'.sleeping)
  {
    hide Sorted, NoneTwice, Placed;
    assert (multiset(l'.sleeping) + multiset(l'.ready))[p] == (multiset(w.sleeping) + multiset(w.ready))[p];
    OnceIn(w.sleeping, p);
    OnceIn(w.ready, p);
    OnceIn(l'.sleeping, p);
    NotInBoth(w, p);
  }

  lemma {:induction false} OnceIn(list: seq<Process>, p: Process)
    requires NoneTwice(list)
    ensures multiset(list)[p] == if p in list then 1 else 0
  {
    if list != [] {
      assert list == [list[0]] + list[1..];
      OnceIn(list[1..], p);
    }
  }

  lemma NotInBoth(w: World, p: Process)
    requires Placed(w)
    ensures p in w.ready ==> p !in w.sleeping
  {
    hide Sorted, Counted;
  }

  /** Whom the hart's process, once taken off, leaves behind. */
  lemma PutWho(w: World, h: nat)
    requires Placed(w) && h < |w.idle| && h < |w.current| && w.transit[h] == null
    ensures var p, w' := OnHart(w, h), PutAway(TakenOff(w, h, OnHart(w, h)), h, OnHart(w, h));
      && p in w.procs && w'.transit == w.transit && w'.idle == w.idle && w'.current == w.current[h := null]
      && (forall x :: x in w'.ready <==> x in w.ready || (x == p && Ready(w.procs[p].state) && p != w.idle[h]))
      && (forall x :: x in w'.sleeping <==> x in w.sleeping || (x == p && w.procs[p].state == Sleeping))
      && w'.procs == (if w.procs[p].state == AsyncFree then w.procs - {p} else w.procs[p := w.procs[p].(onHart := -1)])
  {
    hide Sorted, Counted, Inserted;
    var p := OnHart(w, h);
    assert p in w.procs;
    var w1 := TakenOff(w, h, p);
    InsertedOne(w1.procs, w.ready, p);
    InsertedOne(w1.procs, w.sleeping, p);
    assert forall x: Process :: x in Inserted(w1.procs, w.ready, p) <==> x in w.ready || x == p;
    assert forall x: Process :: x in Inserted(w1.procs, w.sleeping, p) <==> x in w.sleeping || x == p;
    if w.procs[p].state == AsyncFree { assert w1.procs - {p} == w.procs - {p}; }
  }

  /** The head of a sorted list has the least virtual runtime, and the rest are the others. */
  lemma TakesHead(w: World)
    requires Placed(w) && w.ready != []
    ensures forall p :: p in w.ready ==> Vruntime(w.procs, w.ready[0]) <= Vruntime(w.procs, p)
    ensures forall p :: p in w.ready[1..] <==> p in w.ready && p != w.ready[0]
  {
    hide Counted;
    ListedOnce(w);
    forall p | p in w.ready ensures Vruntime(w.procs, w.ready[0]) <= Vruntime(w.procs, p) && (p != w.ready[0] ==> p in w.ready[1..]) {
      var k :| 0 <= k < |w.ready| && w.ready[k] == p;
      if k > 0 { assert w.ready[1..][k - 1] == p; }
    }
  }

  /** sched_invoke, said without its steps. */
  lemma InvokeServes(w: World, h: nat, time: nat)
    requires Placed(w) && Enabled(w, Invoke(h, time))
    ensures var w' := Invoked(w, h, time);
      && w'.idle == w.idle && w'.current == w.current[h := null]
      && h < |w'.transit| && w'.transit == w.transit[h := w'.transit[h]]
      && Serves(w, h, time, w'.transit[h], w') && Keeps(w, h, time, w')
  {
    hide Placed, PlacedBut, Walk, IdlePlaced, StatesPlaced, Counted, PutAway, Walked, Wakes, InLine, Serves, Keeps;
    WalkPlaced(w, time);
    WalkWho(w, time);
    var w1 := Walked(w, time);
    Shape(w1);
    var p := OnHart(w1, h);
    TakenOffPlaced(w1, h);
    var w2 := PutAway(TakenOff(w1, h, p), h, p);
    PutAwayPlaced(TakenOff(w1, h, p), h, p);
    PutWho(w1, h);
    OwnAwake(w, h, time);
    LineIs(w, h, time, w1, w2);
    if w2.ready != [] { TakesHead(w2); }
    InvokeKeeps(w, h, time, w1, w2, Dispatched(w2, h));
    PlacedParts(w2);
    NextServed(w, h, time, w2, Dispatched(w2, h));
  }

  /** The hart's own process is not asleep on the list, and the idle process is ready. */
  lemma OwnAwake(w: World, h: nat, time: nat)
    requires Placed(w) && h < |w.current| && h < |w.idle|
    ensures var p := OnHart(w, h);
      p in w.procs && !Wakes(w, time, p) && (p != w.current[h] ==> Ready(w.procs[p].state))
    ensures !InLine(w, h, time, w.idle[h])
  {
    hide Sorted, Counted;
    var p := OnHart(w, h);
    if p != w.idle[h] { HartOnly(w, h, p); }
  }

  lemma LineIs(w: World, h: nat, time: nat, w1: World, w2: World)
    requires h < |w.current| && h < |w.idle| && w1.current == w.current && w1.idle == w.idle && w1.procs.Keys == w.procs.Keys
    requires forall p :: p in w.procs ==>
               && (p in w1.ready <==> p in w.ready || Wakes(w, time, p))
               && w1.procs[p] == if Wakes(w, time, p) then w.procs[p].(state := Running) else w.procs[p]
    requires OnHart(w1, h) in w.procs && !Wakes(w, time, OnHart(w1, h))
    requires forall x :: x in w2.ready <==>
               x in w1.ready || (x == OnHart(w1, h) && Ready(w1.procs[OnHart(w1, h)].state) && OnHart(w1, h) != w1.idle[h])
    ensures forall p :: p in w.procs ==> (p in w2.ready <==> InLine(w, h, time, p))
  {
    hide Wakes;
  }

  lemma InvokeKeeps(w: World, h: nat, time: nat, w1: World, w2: World, w': World)
    requires h < |w.current| && h < |w.idle| && w1.current == w.current && w1.idle == w.idle && w1.procs.Keys == w.procs.Keys
    requires forall p :: p in w.procs ==>
               && (p in w1.sleeping <==> p in w.sleeping && !Wakes(w, time, p))
               && w1.procs[p] == if Wakes(w, time, p) then w.procs[p].(state := Running) else w.procs[p]
    requires var p := OnHart(w, h);
      && p in w.procs && !Wakes(w, time, p)
      && (p != w.current[h] ==> Ready(w.procs[p].state))
      && (forall x :: x in w2.sleeping <==> x in w1.sleeping || (x == p && w1.procs[p].state == Sleeping))
      && w2.procs == (if w1.procs[p].state == AsyncFree then w1.procs - {p} else w1.procs[p := w1.procs[p].(onHart := -1)])
    requires w'.sleeping == w2.sleeping && w'.procs == w2.procs
    ensures Keeps(w, h, time, w')
    ensures w2.procs.Keys <= w.procs.Keys && forall p :: p in w2.procs ==> w2.procs[p].vruntime == w.procs[p].vruntime
  {
    hide Wakes;
  }

  lemma NextServed(w: World, h: nat, time: nat, w2: World, w': World)
    requires h < |w.current| && h < |w.idle| && h < |w'.transit| && w2.procs.Keys <= w.procs.Keys
    requires !InLine(w, h, time, w.idle[h])
    requires forall p :: p in w.procs ==> (p in w2.ready <==> InLine(w, h, time, p))
    requires forall p :: p in w2.ready ==> p in w2.procs && w2.procs[p].vruntime == w.procs[p].vruntime
    requires w2.ready == [] ==> w'.ready == [] && w'.transit[h] == w.idle[h]
    requires w2.ready != [] ==>
      && w'.ready == w2.ready[1..] && w'.transit[h] == w2.ready[0] && (forall p :: p in w2.ready[1..] <==> p in w2.ready && p != w2.ready[0])
      && (forall p :: p in w2.ready ==> Vruntime(w2.procs, w2.ready[0]) <= Vruntime(w2.procs, p))
    ensures Serves(w, h, time, w'.transit[h], w')
  {
    hide InLine;
    if w2.ready != [] { assert w2.ready[0] in w2.ready; }
  }

  // ---- the code -------------------------------------------------------------------------------------

  class Scheduler {
    const ready: List              // unsched_process_llist
    const sleeping: List           // sleeping_process_llist
    const current: array<Process?> // process_current
    const idle: array<Process>     // process_idle
    ghost var transit: seq<Process?>
    ghost var all: set<Process>

    constructor (idle: array<Process>)
      ensures Valid() && this.idle == idle && all == (set p | p in idle[..]) && fresh(current)
      ensures View() == World(Snapshot(all), [], [], Nowhere(idle.Length), Nowhere(idle.Length), idle[..])
    {
      ready := new List();
      sleeping := new List();
      this.idle := idle;
      current := new Process?[idle.Length](_ => null);
      transit, all := Nowhere(idle.Length), set p | p in idle[..];
      new;
      assert current[..] == Nowhere(idle.Length);
    }

    ghost predicate Valid()
      reads this, ready, ready.Repr, sleeping, sleeping.Repr, current, idle
    {
      && ready.Valid() && sleeping.Valid() && ready != sleeping && ready.Repr !! sleeping.Repr
      && current.Length == idle.Length == |transit| && (current as object) != idle
      && Among(ready.Contents(), all) && Among(sleeping.Contents(), all)
      && Among(idle[..], all) && SomeAmong(current[..], all)
    }

    ghost function View(): World
      reads this, ready, sleeping, current, idle, all
    {
      World(Snapshot(all), ready.Contents(), sleeping.Contents(), current[..], transit, idle[..])
    }

    ghost function Queues(): Lists
      reads this, ready, sleeping, all
    {
      Lists(Snapshot(all), sleeping.Contents(), ready.Contents())
    }

    /** The part of the walk that moves one process from the sleeping list to the ready list. */
    method WakeUp(target: Process)
      requires Valid() && target in sleeping.Contents()
      modifies ready, ready.Repr, sleeping, sleeping.Repr, target
      ensures Valid() && Queues() == Woken(old(Queues()), target)
      ensures fresh(ready.Repr - old(ready.Repr)) && sleeping.Repr <= old(sleeping.Repr)
    {
      hide Distinct, Chain, Processes, Removed, Inserted, Among, SomeAmong, Snapshot, At;
      ghost var l := Queues();
      AmongAt(l.sleeping, all, target);
      StillAmong(l, target, all);
      target.SetState(Running, all);
      sleeping.Remove(target);
      ready.Insert(target, all);
    }

    /** sched_walk_sleeping_list */
    method WalkSleepingList(time: nat)
      requires Valid()
      modifies ready, ready.Repr, sleeping, sleeping.Repr, all
      ensures Valid() && Queues() == Walk(old(Queues()), 0, time)
      ensures fresh(ready.Repr - old(ready.Repr)) && sleeping.Repr <= old(sleeping.Repr)
    {
      hide Distinct, Chain, Processes, Woken, Among, SomeAmong, Snapshot, Walk, Holds;
      ghost var l0 := Queues();
      WalkEnds(l0, time);
      var pln := sleeping.head;
      ghost var i := 0;
      while pln != null
        invariant Valid() && pln == At(sleeping.nodes, i) && 0 <= i <= |sleeping.nodes|
        invariant Walk(Queues(), i, time) == Walk(l0, 0, time)
        invariant fresh(ready.Repr - old(ready.Repr)) && sleeping.Repr <= old(sleeping.Repr)
        decreases |sleeping.nodes|, |sleeping.nodes| - i
      {
        ProcessAt(sleeping.nodes, i);
        ChainAt(sleeping.nodes, i);
        ghost var l := Queues();
        AmongAt(l.sleeping, all, pln.p);
        WokenLess(l, pln.p);
        WalkStep(l, i, time);
        FieldIs(all, pln.p);
        if pln.p.sleepUntil < time {
          WakeUp(pln.p);
          pln := sleeping.head;
          i := 0;
          WalkEnds(Queues(), time);
          if pln == null {
            break;
          }
          ChainAt(sleeping.nodes, 0);
        }
        pln := pln.next;
        i := i + 1;
      }
      WalkEnds(Queues(), time);
    }

    /** The part of sched_invoke that takes the hart's process off it. */
    method TakeOff(hart: nat) returns (p: Process)
      requires Valid() && hart < idle.Length
      modifies current, all
      ensures Valid() && p == OnHart(old(View()), hart) && View() == TakenOff(old(View()), hart, p)
    {
      hide Distinct, Chain, Processes, Snapshot, Holds, At;
      assert idle[hart] in idle[..];
      var q := current[hart];
      assert q in current[..];
      if q == null {
        p := idle[hart];
      } else {
        p := q;
      }
      p.SetHart(-1, all);
      ghost var c := current[..];
      current[hart] := null;
      assert current[..] == c[hart := null];
    }

    /** process_free: a process still on a hart is only marked; any other one does not exist from here on. */
    method ProcessFree(p: Process)
      requires Valid() && p in all && (p.onHart == -1 ==> PlacedBut(View(), p) && p !in idle[..])
      modifies this`all, p
      ensures Valid() && all <= old(all)
      ensures old(p.onHart) == -1 ==> View() == old(View()).(procs := old(View()).procs - {p})
      ensures old(p.onHart) != -1 ==>
        p in old(View()).procs
        && View() == old(View()).(procs := old(View()).procs[p := old(View()).procs[p].(state := AsyncFree)])
    {
      hide Distinct, Chain, Processes, Holds, At, IdlePlaced, StatesPlaced, Counted, PlacesOf;
      ghost var procs := Snapshot(all);
      if p.onHart != -1 {
        p.SetState(AsyncFree, all);
        return;
      }
      AbsentFrom(View(), p);
      all := all - {p};
      assert Snapshot(all) == procs - {p};
    }

    /** The part of sched_invoke that frees the process, puts it to sleep, or makes it ready again. */
    method PutBack(hart: nat, p: Process)
      requires Valid() && hart < idle.Length && p in all && PlacedBut(View(), p) && (p in idle[..] ==> p == idle[hart])
      modifies this`all, p, ready, ready.Repr, sleeping, sleeping.Repr
      ensures Valid() && View() == PutAway(old(View()), hart, p)
      ensures fresh(ready.Repr - old(ready.Repr)) && fresh(sleeping.Repr - old(sleeping.Repr)) && all <= old(all)
    {
      hide Distinct, Chain, Processes, Holds, At, StatesPlaced, Counted, PlacesOf, Inserted, Snapshot, Among, SomeAmong;
      ghost var w := View();
      StateIs(all, p);
      MoreAmong(w.procs, w.ready, p, all);
      MoreAmong(w.procs, w.sleeping, p, all);
      if p.state == AsyncFree {
        NotIdle(w, p);
        HartIs(all, p);
        ProcessFree(p);
      } else if p.state == Sleeping {
        sleeping.Insert(p, all);
      } else if p == idle[hart] {
      } else {
        ready.Insert(p, all);
      }
    }

    /** The part of sched_invoke that chooses the hart's next process. */
    method Dispatch(hart: nat) returns (next: Process)
      requires Valid() && hart < idle.Length
      modifies this`transit, ready, ready.Repr
      ensures Valid() && View() == Dispatched(old(View()), hart) && transit[hart] == next
      ensures ready.Repr <= old(ready.Repr)
    {
      hide Distinct, Chain, Processes, Holds, At, Snapshot;
      ghost var w := View();
      var q := ready.RemoveLowest();
      if q == null {
        next := idle[hart];
      } else {
        next := q;
      }
      transit := transit[hart := next];
    }

    /**
     * sched_invoke up to the release of sched_mutex: whatever the interleaving so far, it takes the world to exactly
     * the next one and leaves every process in its place.
     */
    method Invoke(hart: nat, time: nat) returns (next: Process)
      requires Valid() && Placed(View()) && Enabled(View(), Event.Invoke(hart, time))
      modifies this`transit, this`all, current, all, ready, ready.Repr, sleeping, sleeping.Repr
      ensures Valid() && View() == Invoked(old(View()), hart, time) && Placed(View()) && transit[hart] == next
      ensures Serves(old(View()), hart, time, next, View()) && Keeps(old(View()), hart, time, View())
      ensures current[..] == old(current[..])[hart := null] && transit == old(transit)[hart := next]
    {
      hide Distinct, Chain, Processes, Holds, At, Snapshot, Placed, PlacedBut, Walk, PutAway, TakenOff, Dispatched, IdlePlaced,
        Serves, Keeps;
      ghost var w := View();
      InvokePlaced(w, hart, time);
      InvokeServes(w, hart, time);
      WalkPlaced(w, time);
      WalkSleepingList(time);
      ghost var w1 := View();
      TakenOffPlaced(w1, hart);
      var p := TakeOff(hart);
      OnHartIs(w1, hart, all);
      PutBack(hart, p);
      next := Dispatch(hart);
    }

    /** process_spawn on the invoking hart. */
    method Spawn(hart: nat, p: Process)
      requires Valid() && hart < idle.Length && transit[hart] == p && p in all
      modifies this`transit, current, p
      ensures Valid() && View() == Spawned(old(View()), hart)
      ensures p.onHart == hart && p.vruntime == old(p.vruntime) + old(p.quantum) * 10000
      ensures p.state == old(p.state) && p.sleepUntil == old(p.sleepUntil) && p.quantum == old(p.quantum)
      ensures current[..] == old(current[..])[hart := p] && transit == old(transit)[hart := null]
    {
      hide Distinct, Chain, Processes, Holds, At;
      ghost var procs, c := Snapshot(all), current[..];
      p.onHart := hart;
      current[hart] := p;
      p.vruntime := p.vruntime + p.quantum * DEFAULT_CONTEXT_TIMER;
      transit := transit[hart := null];
      assert Snapshot(all) == procs[p := procs[p].(onHart := hart, vruntime := procs[p].vruntime + procs[p].quantum * DEFAULT_CONTEXT_TIMER)];
      assert current[..] == c[hart := p];
    }
  }

  /** Nobody on any of n harts. */
  ghost function Nowhere(n: nat): (c: seq<Process?>)
    ensures |c| == n && forall h :: 0 <= h < n ==> c[h] == null
  {
    seq(n, _ => null)
  }

  /** How far sched_init has got: the idle processes of harts 1 to h - 1 are on their harts. */
  ghost predicate Booting(w: World, h: nat)
  {
    && Booted(w) && h <= |w.idle| + 1
    && (forall g :: 0 <= g < |w.idle| ==> w.current[g] == if 1 <= g < h then w.idle[g] else null)
  }

  lemma BootNext(w: World, h: nat)
    requires Booting(w, h) && 1 <= h < |w.idle|
    ensures Booting(Spawned(w.(transit := w.transit[h := w.idle[h]]), h), h + 1)
  {
    var w' := Spawned(w.(transit := w.transit[h := w.idle[h]]), h);
    assert w.idle[h] in w.idle;
    assert w'.transit == w.transit;
  }

  /** process_init_new for every hart's idle process. */
  method IdleProcesses(harts: nat) returns (idle: array<Process>)
    ensures fresh(idle) && idle.Length == harts && forall p :: p in idle[..] ==> fresh(p) && p.state == Uninit
    ensures forall g, h :: 0 <= g < h < harts ==> idle[g] != idle[h]
  {
    var made: seq<Process> := [];
    while |made| < harts
      invariant |made| <= harts && forall p :: p in made ==> fresh(p) && p.state == Uninit
      invariant forall g, h :: 0 <= g < h < |made| ==> made[g] != made[h]
    {
      var p := new Process(DEFAULT_QUANTUM);
      made := made + [p];
    }
    idle := new Process[harts](h requires 0 <= h < harts => made[h]);
    assert idle[..] == made;
  }

  /** sched_init: an idle process for every hart, each put on its hart but for hart 0's. */
  method SchedInit(harts: nat) returns (s: Scheduler)
    ensures fresh(s) && s.Valid() && s.idle.Length == harts && Booting(s.View(), harts)
  {
    hide Booting, Snapshot, Scheduler.Valid;
    var idle := IdleProcesses(harts);
    s := BuildScheduler(idle);
    var h := 1;
    while h < harts
      invariant 1 <= h <= harts + 1 && (h == 1 || h <= harts) && fresh(s) && fresh(s.current) && s.Valid() && s.idle == idle
      invariant forall p :: p in idle[..] ==> fresh(p)
      invariant Booting(s.View(), h)
    {
      assert idle[h] in idle[..];
      StartIdle(s, h);
      h := h + 1;
    }
    BootEnd(s.View(), h, harts);
  }

  method BuildScheduler(idle: array<Process>) returns (s: Scheduler)
    requires forall p :: p in idle[..] ==> p.state == Uninit
    requires forall g, h :: 0 <= g < h < idle.Length ==> idle[g] != idle[h]
    ensures fresh(s) && fresh(s.current) && s.Valid() && s.idle == idle && Booting(s.View(), 1)
  {
    hide Distinct, Chain, Processes, Holds, At, Booting;
    s := new Scheduler(idle);
    BootStart(s.View());
  }

  /** process_spawn of hart h's idle process. */
  method StartIdle(s: Scheduler, h: nat)
    requires s.Valid() && 1 <= h < s.idle.Length && Booting(s.View(), h)
    modifies s`transit, s.current, s.idle[h]
    ensures s.Valid() && Booting(s.View(), h + 1)
  {
    hide Distinct, Chain, Processes, Holds, At, Booting, Spawned;
    assert s.idle[h] in s.idle[..];
    ghost var w := s.View();
    s.transit := s.transit[h := s.idle[h]];
    BootNext(w, h);
    s.Spawn(h, s.idle[h]);
  }

  lemma BootStart(w: World)
    requires w.ready == w.sleeping == [] && w.current == w.transit == Nowhere(|w.idle|)
    requires (forall p :: p in w.procs <==> p in w.idle) && forall g, h :: 0 <= g < h < |w.idle| ==> w.idle[g] != w.idle[h]
    requires forall p :: p in w.procs ==> w.procs[p].state == Uninit
    ensures Booting(w, 1)
  {
    forall h | 0 <= h < |w.idle| ensures w.idle[h] in w.procs { assert w.idle[h] in w.idle; }
  }

  lemma BootEnd(w: World, h: nat, harts: nat)
    requires Booting(w, h) && harts == |w.idle| && (h == harts || (h == 1 && harts == 0))
    ensures Booting(w, harts)
  {
  }

  lemma StateIs(all: set<Process>, p: Process)
    requires p in all
    ensures p in Snapshot(all) && Snapshot(all)[p].state == p.state
  {
  }

  lemma HartIs(all: set<Process>, p: Process)
    requires p in all
    ensures p in Snapshot(all) && Snapshot(all)[p].onHart == p.onHart
  {
  }

  lemma MoreAmong(procs: Procs, list: seq<Process>, p: Process, all: set<Process>)
    requires Among(list, all) && p in all
    ensures Among(Inserted(procs, list, p), all)
  {
    InsertedOne(procs, list, p);
  }

  lemma NotIdle(w: World, p: Process)
    requires IdlePlaced(w) && p in w.procs && w.procs[p].state == AsyncFree
    ensures p !in w.idle
  {
  }

  lemma OnHartIs(w: World, h: nat, all: set<Process>)
    requires h < |w.current| && h < |w.idle| && SomeAmong(w.current, all) && Among(w.idle, all)
    ensures OnHart(w, h) in all
  {
    assert w.idle[h] in w.idle && w.current[h] in w.current;
  }

  ghost predicate SomeAmong(c: seq<Process?>, all: set<Process>)
  {
    forall p :: p in c ==> p == null || p in all
  }

  lemma StillAmong(l: Lists, p: Process, all: set<Process>)
    requires Among(l.sleeping, all) && Among(l.ready, all) && p in l.sleeping && p in l.procs
    ensures Among(Woken(l, p).sleeping, all) && Among(Woken(l, p).ready, all)
  {
    assert p in all;
    RemovedAmong(l.sleeping, p);
    var procs := l.procs[p := l.procs[p].(state := Running)];
    InsertedOne(procs, l.ready, p);
    assert Woken(l, p).ready == Inserted(procs, l.ready, p);
    forall x | x in Inserted(procs, l.ready, p) ensures x in all { }
  }

  lemma AmongAt(c: seq<Process>, all: set<Process>, p: Process)
    requires Among(c, all) && p in c
    ensures p in all && p in Snapshot(all)
  {
  }

  lemma WalkStep(l: Lists, i: nat, time: nat)
    requires i < |l.sleeping| && l.sleeping[i] in l.procs
    ensures var p, l' := l.sleeping[i], Woken(l, l.sleeping[i]);
            Walk(l, i, time) == if l.procs[p].sleepUntil < time then (if l'.sleeping == [] then l' else Walk(l', 1, time))
                                else Walk(l, i + 1, time)
  {
  }

  lemma WalkEnds(l: Lists, time: nat)
    ensures forall i: nat :: i >= |l.sleeping| ==> Walk(l, i, time) == l
  {
  }

  lemma FieldIs(all: set<Process>, p: Process)
    requires p in all
    ensures p in Snapshot(all) && Snapshot(all)[p].sleepUntil == p.sleepUntil
  {
  }

  lemma WokenLess(l: Lists, p: Process)
    requires p in l.procs
    ensures p in l.sleeping ==> |Woken(l, p).sleeping| < |l.sleeping|
  {
  }
}
