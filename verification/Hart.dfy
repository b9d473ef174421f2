/**
 * Starting and stopping harts through software interrupts (sbi/src/hart.c:30-134).
 *
 * A Machine is the state all harts share together with where each of them is in hart_start, hart_stop or
 * hart_handle_msip; one step is one access to a lock, a hart's record or its interrupt-pending bit.
 */
module Hart {

  datatype Status = Stopped | Starting | Started | Stopping | Invalid

  datatype Launch = Launch(target: nat, frame: nat)

  /** One entry of sbi_hart_data with its lock and MSIP bit, and what was started and launched on it so far. */
  datatype Record = Record(status: Status, target: nat, frame: nat, msip: bool, owner: int,
                           starts: seq<Launch>, launches: seq<Launch>)

  datatype Pc =
    | Idle
    // hart_start
    | StartHeld(h: nat, target: nat, frame: nat)
    | StartMarked(h: nat, target: nat, frame: nat)
    | StartAimed(h: nat, target: nat, frame: nat)
    | StartFilled(h: nat)
    // hart_stop
    | StopHeld(h: nat)
    | StopMarked(h: nat)
    | StopFilled(h: nat)
    // hart_handle_msip
    | Trapped(h: nat)
    | Handling(h: nat)
    | Cleared(h: nat)
    | Failing(h: nat)
    // about to release the lock
    | Leaving(h: nat)

  datatype Machine = Machine(harts: seq<Record>, pcs: seq<Pc>)

  /** What an idle hart does next; the others just go on. */
  datatype Call = Start(hart: nat, to: nat, with: nat) | Stop(hart: nat) | Trap | GoOn

  ghost predicate Transitional(s: Status) { s == Starting || s == Stopping }

  /** A hart takes its own software interrupt only when that is pending; a call names a hart that exists. */
  ghost predicate Enabled(m: Machine, a: nat, call: Call)
  {
    && a < |m.pcs| && |m.pcs| == |m.harts|
    && (m.pcs[a] == Idle ==>
          match call case Start(h, _, _) => h < |m.harts| case Stop(h) => h < |m.harts|
                     case Trap => m.harts[a].msip case GoOn => false)
    && (m.pcs[a].Trapped? && m.pcs[a].h < |m.harts| ==> m.harts[m.pcs[a].h].owner == -1)
  }

  ghost function Put(m: Machine, a: nat, h: nat, r: Record, pc: Pc): Machine
    requires a < |m.pcs| && h < |m.harts|
  {
    Machine(m.harts[h := r], m.pcs[a := pc])
  }

  /** What hart a's next access makes of the record it is working on, and where it is then. */
  ghost function Go(pc: Pc, r: Record, a: nat): (Record, Pc)
    requires pc != Idle
  {
    match pc
    case StartHeld(h, target, frame) =>
      if r.status != Stopped then (r, Leaving(h))
      else (r.(status := Starting, starts := r.starts + [Launch(target, frame)]), StartMarked(h, target, frame))
    case StartMarked(h, target, frame) => (r.(target := target), StartAimed(h, target, frame))
    case StartAimed(h, target, frame) => (r.(frame := frame), StartFilled(h))
    case StartFilled(h) => (r.(msip := true), Leaving(h))
    case StopHeld(h) =>
      if r.status != Started then (r, Leaving(h)) else (r.(status := Stopping), StopMarked(h))
    case StopMarked(h) => (r.(target := 0, frame := 0), StopFilled(h))
    case StopFilled(h) => (r.(msip := true), Leaving(h))
    case Trapped(h) => (r.(owner := a), Handling(h))
    case Handling(h) => (r.(msip := false), Cleared(h))
    case Cleared(h) =>
      if r.status == Starting then
        (r.(status := Started, launches := r.launches + [Launch(r.target, r.frame)]), Leaving(h))
      else if r.status == Stopping then (r.(status := Stopped), Leaving(h))
      else (r, Failing(h))
    case Failing(h) => (r, Leaving(h))
    case Leaving(h) => (r.(owner := -1), Idle)
  }

  /** One step of hart a. */
  ghost function Step(m: Machine, a: nat, call: Call): Machine
    requires Enabled(m, a, call)
  {
    var pc := m.pcs[a];
    if pc == Idle then
      match call
      case Start(h, target, frame) =>
        if m.harts[h].owner != -1 then m else Put(m, a, h, m.harts[h].(owner := a), StartHeld(h, target, frame))
      case Stop(h) =>
        if m.harts[h].owner != -1 then m else Put(m, a, h, m.harts[h].(owner := a), StopHeld(h))
      case Trap => m.(pcs := m.pcs[a := Trapped(a)])
      case GoOn => m
    else if pc.h >= |m.harts| then m
    else Put(m, a, pc.h, Go(pc, m.harts[pc.h], a).0, Go(pc, m.harts[pc.h], a).1)
  }

  // ---- the invariant --------------------------------------------------------------------

  /** Every start so far was launched, but for the one under way. */
  ghost predicate Accounted(r: Record)
  {
    r.starts == if r.status == Starting then r.launches + [Launch(r.target, r.frame)] else r.launches
  }

  /** Between critical sections: the interrupt is pending exactly in the two passing states. */
  ghost predicate Settled(r: Record)
  {
    Accounted(r) && (r.msip <==> Transitional(r.status))
  }

  /** What holds of the hart whose lock the hart at pc has. */
  ghost predicate Midway(pc: Pc, r: Record)
  {
    match pc
    case StartHeld(_, _, _) => Settled(r)
    case StartMarked(_, target, frame) => r.status == Starting && !r.msip && r.starts == r.launches + [Launch(target, frame)]
    case StartAimed(_, target, frame) =>
      r.status == Starting && !r.msip && r.target == target && r.starts == r.launches + [Launch(target, frame)]
    case StartFilled(_) => r.status == Starting && !r.msip && Accounted(r)
    case StopHeld(_) => Settled(r)
    case StopMarked(_) => r.status == Stopping && !r.msip && Accounted(r)
    case StopFilled(_) => r.status == Stopping && !r.msip && Accounted(r)
    case Handling(_) => Settled(r) && r.msip
    case Cleared(_) => Transitional(r.status) && !r.msip && Accounted(r)
    case Leaving(_) => Settled(r)
    case _ => false
  }

  ghost predicate HartOk(m: Machine, h: nat)
    requires h < |m.harts|
  {
    var r := m.harts[h];
    if r.owner == -1 then Settled(r)
    else 0 <= r.owner < |m.pcs| && m.pcs[r.owner] != Idle && !m.pcs[r.owner].Trapped? && m.pcs[r.owner].h == h
  }

  ghost predicate PcOk(m: Machine, a: nat)
    requires a < |m.pcs|
  {
    var pc := m.pcs[a];
    if pc == Idle then true
    else if pc.Trapped? then pc.h == a && a < |m.harts| && m.harts[a].msip
    else pc.h < |m.harts| && m.harts[pc.h].owner == a && Midway(pc, m.harts[pc.h])
         && (pc.Handling? || pc.Cleared? ==> pc.h == a)
  }

  ghost predicate Safe(m: Machine)
  {
    && |m.pcs| == |m.harts|
    && (forall h :: 0 <= h < |m.harts| ==> HartOk(m, h))
    && (forall a :: 0 <= a < |m.pcs| ==> PcOk(m, a))
  }

  lemma StepSafe(m: Machine, a: nat, call: Call)
    requires Safe(m) && Enabled(m, a, call)
    ensures Safe(Step(m, a, call))
  {
    assert PcOk(m, a);
    if m.pcs[a] == Idle {
      CallSafe(m, a, call);
    } else {
      GoSafe(m, a);
    }
  }

  /** An idle hart takes a lock, finds it taken, or traps. */
  lemma CallSafe(m: Machine, a: nat, call: Call)
    requires Safe(m) && Enabled(m, a, call) && m.pcs[a] == Idle
    ensures Safe(Step(m, a, call))
  {
    var m' := Step(m, a, call);
    forall b | 0 <= b < |m'.pcs| ensures PcOk(m', b) {
      assert PcOk(m, b);
      match call
      case Start(h, _, _) => assert HartOk(m, h);
      case Stop(h) => assert HartOk(m, h);
      case _ =>
    }
    forall h | 0 <= h < |m'.harts| ensures HartOk(m', h) {
      assert HartOk(m, h);
    }
  }

  /** A hart inside its section goes on. */
  lemma GoSafe(m: Machine, a: nat)
    requires Safe(m) && Enabled(m, a, GoOn) && m.pcs[a] != Idle
    ensures Safe(Step(m, a, GoOn))
  {
    hide Settled, Accounted, Midway, Go;
    var m', pc := Step(m, a, GoOn), m.pcs[a];
    assert PcOk(m, a);
    assert HartOk(m, pc.h);
    GoKeeps(pc, m.harts[pc.h], a);
    forall b | 0 <= b < |m'.pcs| ensures PcOk(m', b) {
      assert PcOk(m, b);
    }
    forall h | 0 <= h < |m'.harts| ensures HartOk(m', h) {
      assert HartOk(m, h);
    }
  }

  lemma GoKeeps(pc: Pc, r: Record, a: nat)
    requires pc != Idle && (if pc.Trapped? then Settled(r) && r.msip else Midway(pc, r) && r.owner == a)
    ensures var (r', pc') := Go(pc, r, a);
      && (pc' == Idle <==> pc.Leaving?) && (pc' == Idle ==> Settled(r') && r'.owner == -1)
      && (pc' != Idle ==> Midway(pc', r') && r'.owner == a && pc'.h == pc.h && !pc'.Trapped?)
      && (pc'.Handling? || pc'.Cleared? ==> pc.Trapped? || pc.Handling?)
      && (r'.msip != r.msip ==> !pc.Trapped?) && (r.msip && !r'.msip ==> pc.Handling?)
  {
  }

  /** After boot a hart's status moves only around the circle. */
  lemma StatusMoves(m: Machine, a: nat, call: Call, h: nat)
    requires Safe(m) && Enabled(m, a, call) && h < |m.harts|
    ensures h < |Step(m, a, call).harts|
    ensures var before, after := m.harts[h].status, Step(m, a, call).harts[h].status;
            after != before ==>
              || (before == Stopped && after == Starting) || (before == Starting && after == Started)
              || (before == Started && after == Stopping) || (before == Stopping && after == Stopped)
  {
    assert PcOk(m, a);
  }

  /** The branch that reports a hart in no passing state is never taken. */
  lemma NeverFailing(m: Machine, a: nat)
    requires Safe(m) && a < |m.pcs|
    ensures !m.pcs[a].Failing?
  {
    assert PcOk(m, a);
  }

  // ---- whole runs ------------------------------------------------------------------------

  datatype Event = Event(hart: nat, call: Call)

  ghost predicate Possible(m: Machine, run: seq<Event>)
    decreases |run|
  {
    run != [] ==> Enabled(m, run[0].hart, run[0].call) && Possible(Step(m, run[0].hart, run[0].call), run[1..])
  }

  ghost function After(m: Machine, run: seq<Event>): Machine
    requires Possible(m, run)
    decreases |run|
  {
    if run == [] then m else After(Step(m, run[0].hart, run[0].call), run[1..])
  }

  /** Once booted, no hart is passing, no interrupt is pending and no lock is held. */
  ghost predicate Booted(m: Machine)
  {
    && |m.pcs| == |m.harts| && (forall a :: 0 <= a < |m.pcs| ==> m.pcs[a] == Idle)
    && forall h :: 0 <= h < |m.harts| ==>
         var r := m.harts[h]; !Transitional(r.status) && !r.msip && r.owner == -1 && r.starts == r.launches == []
  }

  lemma BootSafe(m: Machine)
    requires Booted(m)
    ensures Safe(m)
  {
  }

  lemma {:induction false} RunSafe(m: Machine, run: seq<Event>)
    requires Safe(m) && Possible(m, run)
    ensures Safe(After(m, run))
    decreases |run|
  {
    hide Safe, Enabled, Step;
    if run != [] {
      StepSafe(m, run[0].hart, run[0].call);
      RunSafe(Step(m, run[0].hart, run[0].call), run[1..]);
    }
  }

  /**
   * In every interleaving: whenever a hart's lock is free its interrupt is pending exactly in the passing states, and
   * every successful start was consumed by one launch with its own target and frame, but for one still under way.
   */
  lemma Handshake(m: Machine, run: seq<Event>, h: nat)
    requires Booted(m) && Possible(m, run) && h < |After(m, run).harts|
    ensures var r := After(m, run).harts[h];
            r.owner == -1 ==>
              && (r.msip <==> Transitional(r.status))
              && r.starts == if r.status == Starting then r.launches + [Launch(r.target, r.frame)] else r.launches
  {
    hide Possible, After;
    BootSafe(m);
    RunSafe(m, run);
    assert HartOk(After(m, run), h);
  }

  // ---- the code ----------------------------------------------------------------------------

  /** Hart a goes on alone until it is idle again. */
  ghost function Alone(m: Machine, a: nat, n: nat): Machine
    requires |m.pcs| == |m.harts| && a < |m.pcs|
    ensures |Alone(m, a, n).pcs| == |Alone(m, a, n).harts| == |m.harts|
    decreases n
  {
    if n == 0 || m.pcs[a] == Idle || !Enabled(m, a, GoOn) then m else Alone(Step(m, a, GoOn), a, n - 1)
  }

  /** A whole call or interrupt of hart a, when no other hart moves meanwhile. */
  ghost function Whole(harts: seq<Record>, a: nat, call: Call): seq<Record>
    requires a < |harts| && Enabled(Machine(harts, seq(|harts|, _ => Idle)), a, call)
  {
    Alone(Step(Machine(harts, seq(|harts|, _ => Idle)), a, call), a, 6).harts
  }

  /** sbi_hart_data with the locks and the CLINT's MSIP registers; owner -1 is MUTEX_UNLOCKED. */
  class HartTable {
    const harts: array<Record>

    constructor (harts: array<Record>)
      ensures this.harts == harts
    {
      this.harts := harts;
    }

    method MutexTry(h: nat, a: nat) returns (ok: bool)
      requires h < harts.Length
      modifies harts
      ensures ok == (old(harts[h]).owner == -1)
      ensures harts[..] == if ok then old(harts[..])[h := old(harts[h]).(owner := a)] else old(harts[..])
    {
      ok := harts[h].owner == -1;
      if ok {
        harts[h] := harts[h].(owner := a);
      }
    }

    /** hart_start, called by hart a: 0, or 1 when the lock is taken, or 2 when the hart is not stopped. */
    method HartStart(h: nat, target: nat, frame: nat, a: nat) returns (code: int)
      requires h < harts.Length && a < harts.Length
      modifies harts
      ensures harts[..] == Whole(old(harts[..]), a, Start(h, target, frame))
      ensures code == if old(harts[h]).owner != -1 then 1 else if old(harts[h]).status != Stopped then 2 else 0
      ensures code != 0 ==> harts[..] == old(harts[..])
      ensures code == 0 ==>
        var r := old(harts[h]);
        harts[..] == old(harts[..])[h := Record(Starting, target, frame, true, -1, r.starts + [Launch(target, frame)], r.launches)]
    {
      ghost var before := harts[..];
      var ok := MutexTry(h, a);
      if !ok {
        return 1;
      }
      if harts[h].status != Stopped {
        harts[h] := harts[h].(owner := -1);
        StartWhole(before, a, h, target, frame);
        return 2;
      }
      harts[h] := harts[h].(status := Starting, starts := harts[h].starts + [Launch(target, frame)]);
      harts[h] := harts[h].(target := target);
      harts[h] := harts[h].(frame := frame);
      harts[h] := harts[h].(msip := true);
      harts[h] := harts[h].(owner := -1);
      StartWhole(before, a, h, target, frame);
      code := 0;
    }

    /** hart_stop, called by hart a: 0, or 1 when the lock is taken, or 2 when the hart is not started. */
    method HartStop(h: nat, a: nat) returns (code: int)
      requires h < harts.Length && a < harts.Length
      modifies harts
      ensures harts[..] == Whole(old(harts[..]), a, Stop(h))
      ensures code == if old(harts[h]).owner != -1 then 1 else if old(harts[h]).status != Started then 2 else 0
      ensures code != 0 ==> harts[..] == old(harts[..])
      ensures code == 0 ==>
        var r := old(harts[h]);
        harts[..] == old(harts[..])[h := Record(Stopping, 0, 0, true, -1, r.starts, r.launches)]
    {
      ghost var before := harts[..];
      var ok := MutexTry(h, a);
      if !ok {
        return 1;
      }
      if harts[h].status != Started {
        harts[h] := harts[h].(owner := -1);
        StopWhole(before, a, h);
        return 2;
      }
      harts[h] := harts[h].(status := Stopping);
      harts[h] := harts[h].(target := 0, frame := 0);
      harts[h] := harts[h].(msip := true);
      harts[h] := harts[h].(owner := -1);
      StopWhole(before, a, h);
      code := 0;
    }

    /** hart_handle_msip on hart a itself, once its lock is free. */
    method HandleMsip(a: nat) returns (launched: bool)
      requires a < harts.Length && harts[a].msip && harts[a].owner == -1
      modifies harts
      ensures harts[..] == Whole(old(harts[..]), a, Trap)
      ensures launched == (old(harts[a]).status == Starting)
      ensures var r := old(harts[a]);
        harts[..] == old(harts[..])[a := Record(
          if r.status == Starting then Started else if r.status == Stopping then Stopped else r.status,
          r.target, r.frame, false, -1, r.starts, if launched then r.launches + [Launch(r.target, r.frame)] else r.launches)]
    {
      ghost var before := harts[..];
      var ok := MutexTry(a, a);
      harts[a] := harts[a].(msip := false);
      launched := harts[a].status == Starting;
      if harts[a].status == Starting {
        harts[a] := harts[a].(status := Started, launches := harts[a].launches + [Launch(harts[a].target, harts[a].frame)]);
      } else if harts[a].status == Stopping {
        harts[a] := harts[a].(status := Stopped);
      }
      harts[a] := harts[a].(owner := -1);
      TrapWhole(before, a);
    }
  }

  /** Hart a alone at work on hart h's record. */
  ghost function Working(harts: seq<Record>, a: nat, h: nat, r: Record, pc: Pc): Machine
    requires a < |harts| && h < |harts|
  {
    Machine(harts[h := r], seq(|harts|, _ => Idle)[a := pc])
  }

  lemma WorkOn(harts: seq<Record>, a: nat, h: nat, r: Record, pc: Pc, n: nat)
    requires a < |harts| && h < |harts| && pc != Idle && pc.h == h && !pc.Trapped? && n > 0
    ensures Alone(Working(harts, a, h, r, pc), a, n) == Alone(Working(harts, a, h, Go(pc, r, a).0, Go(pc, r, a).1), a, n - 1)
  {
    hide Go;
    var m := Working(harts, a, h, r, pc);
    assert Step(m, a, GoOn) == Working(harts, a, h, Go(pc, r, a).0, Go(pc, r, a).1);
  }

  lemma Done(harts: seq<Record>, a: nat, h: nat, r: Record, n: nat)
    requires a < |harts| && h < |harts|
    ensures Alone(Working(harts, a, h, r, Idle), a, n).harts == harts[h := r]
  {
  }

  lemma StartWhole(harts: seq<Record>, a: nat, h: nat, target: nat, frame: nat)
    requires a < |harts| && h < |harts| && harts[h].owner == -1
    ensures var r := harts[h];
      Whole(harts, a, Start(h, target, frame))
      == harts[h := if r.status != Stopped then r
                    else r.(status := Starting, starts := r.starts + [Launch(target, frame)], target := target, frame := frame, msip := true)]
  {
    hide Alone, Working;
    var r := harts[h].(owner := a);
    Entered(harts, a, h, Start(h, target, frame), StartHeld(h, target, frame));
    WorkOn(harts, a, h, r, StartHeld(h, target, frame), 6);
    if r.status != Stopped {
      WorkOn(harts, a, h, r, Leaving(h), 5);
      Done(harts, a, h, harts[h], 4);
    } else {
      var r1 := r.(status := Starting, starts := r.starts + [Launch(target, frame)]);
      WorkOn(harts, a, h, r1, StartMarked(h, target, frame), 5);
      var r2 := r1.(target := target);
      WorkOn(harts, a, h, r2, StartAimed(h, target, frame), 4);
      var r3 := r2.(frame := frame);
      WorkOn(harts, a, h, r3, StartFilled(h), 3);
      var r4 := r3.(msip := true);
      WorkOn(harts, a, h, r4, Leaving(h), 2);
      Done(harts, a, h, r4.(owner := -1), 1);
    }
  }

  lemma Entered(harts: seq<Record>, a: nat, h: nat, call: Call, pc: Pc)
    requires a < |harts| && h < |harts| && harts[h].owner == -1
    requires (call.Start? && pc == StartHeld(h, call.to, call.with) && call.hart == h) || (call.Stop? && pc == StopHeld(h) && call.hart == h)
    ensures Whole(harts, a, call) == Alone(Working(harts, a, h, harts[h].(owner := a), pc), a, 6).harts
  {
    hide Alone;
  }

  lemma StopWhole(harts: seq<Record>, a: nat, h: nat)
    requires a < |harts| && h < |harts| && harts[h].owner == -1
    ensures var r := harts[h];
      Whole(harts, a, Stop(h))
      == harts[h := if r.status != Started then r else r.(status := Stopping, target := 0, frame := 0, msip := true)]
  {
    hide Alone, Working;
    var r := harts[h].(owner := a);
    Entered(harts, a, h, Stop(h), StopHeld(h));
    WorkOn(harts, a, h, r, StopHeld(h), 6);
    if r.status != Started {
      WorkOn(harts, a, h, r, Leaving(h), 5);
      Done(harts, a, h, harts[h], 4);
    } else {
      var r1 := r.(status := Stopping);
      WorkOn(harts, a, h, r1, StopMarked(h), 5);
      var r2 := r1.(target := 0, frame := 0);
      WorkOn(harts, a, h, r2, StopFilled(h), 4);
      var r3 := r2.(msip := true);
      WorkOn(harts, a, h, r3, Leaving(h), 3);
      Done(harts, a, h, r3.(owner := -1), 2);
    }
  }

  lemma TrapWhole(harts: seq<Record>, a: nat)
    requires a < |harts| && harts[a].owner == -1 && harts[a].msip
    ensures var r := harts[a];
      Whole(harts, a, Trap)
      == harts[a := if r.status == Starting then r.(msip := false, status := Started, launches := r.launches + [Launch(r.target, r.frame)])
                    else if r.status == Stopping then r.(msip := false, status := Stopped) else r.(msip := false)]
  {
    hide Working, Alone, Whole, Step, Go;
    var r := harts[a].(owner := a);
    TrapEntered(harts, a);
    GoHandler(a, r);
    GoHandler(a, r.(msip := false));
    WorkOn(harts, a, a, r, Handling(a), 5);
    var r1 := r.(msip := false);
    WorkOn(harts, a, a, r1, Cleared(a), 4);
    if r.status == Starting {
      var r2 := r1.(status := Started, launches := r1.launches + [Launch(r1.target, r1.frame)]);
      WorkOn(harts, a, a, r2, Leaving(a), 3);
      GoHandler(a, r2);
      Done(harts, a, a, r2.(owner := -1), 2);
    } else if r.status == Stopping {
      var r2 := r1.(status := Stopped);
      WorkOn(harts, a, a, r2, Leaving(a), 3);
      GoHandler(a, r2);
      Done(harts, a, a, r2.(owner := -1), 2);
    } else {
      WorkOn(harts, a, a, r1, Failing(a), 3);
      WorkOn(harts, a, a, r1, Leaving(a), 2);
      Done(harts, a, a, r1.(owner := -1), 1);
    }
  }

  lemma GoHandler(a: nat, r: Record)
    ensures Go(Handling(a), r, a) == (r.(msip := false), Cleared(a))
    ensures Go(Cleared(a), r, a) == if r.status == Starting
              then (r.(status := Started, launches := r.launches + [Launch(r.target, r.frame)]), Leaving(a))
              else if r.status == Stopping then (r.(status := Stopped), Leaving(a)) else (r, Failing(a))
    ensures Go(Failing(a), r, a) == (r, Leaving(a)) && Go(Leaving(a), r, a) == (r.(owner := -1), Idle)
  {
  }

  lemma TrapEntered(harts: seq<Record>, a: nat)
    requires a < |harts| && harts[a].owner == -1 && harts[a].msip
    ensures Whole(harts, a, Trap) == Alone(Working(harts, a, a, harts[a].(owner := a), Handling(a)), a, 5).harts
  {
    var m := Step(Machine(harts, seq(|harts|, _ => Idle)), a, Trap);
    assert Step(m, a, GoOn) == Working(harts, a, a, harts[a].(owner := a), Handling(a));
    assert Alone(m, a, 6) == Alone(Step(m, a, GoOn), a, 5);
  }
}
