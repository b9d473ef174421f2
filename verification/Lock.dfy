/**
 * Mutexes and semaphores made of atomic memory operations (lock.c), as the steps of any number of clients.
 */
module Lock {

  const MUTEX_LOCKED: int := 0
  const MUTEX_UNLOCKED: int := 1

  /** A 32-bit signed word wraps around. */
  function Wrap(x: int): (r: int)
    ensures -0x8000_0000 <= r < 0x8000_0000
    ensures -0x8000_0000 <= x < 0x8000_0000 ==> r == x
  {
    (x + 0x8000_0000) % 0x1_0000_0000 - 0x8000_0000
  }

  /** A word shared by all clients. */
  class Word {
    var value: int

    constructor (value: int)
      ensures this.value == value
    {
      this.value := value;
    }

    /** amoswap.w.aq */
    method AmoSwap(x: int) returns (previous: int)
      modifies this
      ensures previous == old(value) && value == x
    {
      previous := value;
      value := x;
    }

    /** amoadd.w.aq */
    method AmoAdd(x: int) returns (previous: int)
      modifies this
      ensures previous == old(value) && value == Wrap(old(value) + x)
    {
      previous := value;
      value := Wrap(value + x);
    }

    /** mutex_try: one swap decides; it is the step of the machine below that a client without the mutex makes. */
    method MutexTry() returns (ok: bool)
      modifies this
      ensures ok == (old(value) != 0) && value == 0
      ensures forall m: Mutex, c: nat :: c < |m.holding| && !m.holding[c] && m.value == old(value) ==>
                MutexStep(m, c) == Mutex(value, m.holding[c := ok])
    {
      var previous := AmoSwap(MUTEX_LOCKED);
      ok := previous != MUTEX_LOCKED;
    }

    method MutexPost()
      modifies this
      ensures value == 1
      ensures forall m: Mutex, c: nat :: c < |m.holding| && m.holding[c] && m.value == old(value) ==>
                MutexStep(m, c) == Mutex(value, m.holding[c := false])
    {
      var previous := AmoSwap(MUTEX_UNLOCKED);
    }

    /** sem_try: one step of the machine below, or, when it fails, that step and the one that gives back what it took. */
    method SemTry() returns (ok: bool)
      requires -0x8000_0000 < value < 0x8000_0000
      modifies this
      ensures ok == (old(value) > 0) && value == old(value) - if ok then 1 else 0
      ensures ok ==> forall s: Sem, c: nat :: c < |s.clients| && s.clients[c].Out? && s.value == old(value) ==>
                SemStep(s, c) == Sem(value, s.clients[c := Holding])
      ensures !ok ==> forall s: Sem, c: nat :: c < |s.clients| && s.clients[c].Out? && s.value == old(value) ==>
                SemStep(s, c).clients[c].Failed? && SemStep(SemStep(s, c), c) == Sem(value, s.clients)
    {
      var previous := AmoAdd(-1);
      if previous <= 0 {
        SemPost();
        return false;
      }
      ok := true;
    }

    method SemPost()
      modifies this
      ensures value == Wrap(old(value) + 1)
      ensures forall s: Sem, c: nat :: c < |s.clients| && !s.clients[c].Out? && s.value == old(value) ==>
                SemStep(s, c) == Sem(value, s.clients[c := Out])
    {
      var previous := AmoAdd(1);
    }
  }

  // ---- semaphores ------------------------------------------------------------------

  /** A client is out, has failed a try and not yet given it back, or holds the semaphore. */
  datatype Client = Out | Failed | Holding

  datatype Sem = Sem(value: int, clients: seq<Client>)

  /** The next atomic operation of a client: the decrement of sem_try, its undo, or sem_post by a holder. */
  ghost function SemStep(s: Sem, c: nat): Sem
    requires c < |s.clients|
  {
    match s.clients[c]
    case Out => Sem(Wrap(s.value - 1), s.clients[c := if s.value <= 0 then Failed else Holding])
    case Failed => Sem(Wrap(s.value + 1), s.clients[c := Out])
    case Holding => Sem(Wrap(s.value + 1), s.clients[c := Out])
  }

  ghost function Count(clients: seq<Client>, k: Client): (n: nat)
    ensures n <= |clients|
  {
    if clients == [] then 0 else (if clients[0] == k then 1 else 0) + Count(clients[1..], k)
  }

  /** value + holders + failed tries not yet given back is what the semaphore started with; so holders never exceed it. */
  ghost predicate SemSafe(s: Sem, n: nat)
  {
    s.value + Count(s.clients, Holding) + Count(s.clients, Failed) == n && Count(s.clients, Holding) <= n
  }

  lemma {:induction false} CountUpdate(clients: seq<Client>, c: nat, x: Client, k: Client)
    requires c < |clients|
    ensures Count(clients[c := x], k) == Count(clients, k) - (if clients[c] == k then 1 else 0) + (if x == k then 1 else 0)
  {
    if c > 0 {
      assert clients[c := x][1..] == clients[1..][c - 1 := x];
      CountUpdate(clients[1..], c - 1, x, k);
    } else {
      assert clients[c := x][1..] == clients[1..];
    }
  }

  lemma {:induction false} CountTwo(clients: seq<Client>)
    ensures Count(clients, Holding) + Count(clients, Failed) <= |clients|
  {
    if clients != [] {
      CountTwo(clients[1..]);
    }
  }

  lemma SemStepSafe(s: Sem, n: nat, c: nat)
    requires SemSafe(s, n) && c < |s.clients| && n + |s.clients| < 0x8000_0000
    ensures SemSafe(SemStep(s, c), n)
  {
    var x := SemStep(s, c).clients[c];
    CountUpdate(s.clients, c, x, Holding);
    CountUpdate(s.clients, c, x, Failed);
    CountTwo(s.clients);
  }

  ghost predicate Known(schedule: seq<nat>, clients: nat)
  {
    forall i :: 0 <= i < |schedule| ==> schedule[i] < clients
  }

  ghost function SemRun(s: Sem, schedule: seq<nat>): (s': Sem)
    requires Known(schedule, |s.clients|)
    ensures |s'.clients| == |s.clients|
    decreases |schedule|
  {
    if schedule == [] then s else SemRun(SemStep(s, schedule[0]), schedule[1..])
  }

  /** In every interleaving of the clients' atomic operations the semaphore stays safe. */
  lemma {:induction false} SemRunSafe(s: Sem, n: nat, schedule: seq<nat>)
    requires SemSafe(s, n) && n + |s.clients| < 0x8000_0000 && Known(schedule, |s.clients|)
    ensures SemSafe(SemRun(s, schedule), n)
    decreases |schedule|
  {
    if schedule != [] {
      SemStepSafe(s, n, schedule[0]);
      SemRunSafe(SemStep(s, schedule[0]), n, schedule[1..]);
    }
  }

  // ---- mutexes -----------------------------------------------------------------------

  datatype Mutex = Mutex(value: int, holding: seq<bool>)

  /** The next swap of a client: mutex_try by one that does not hold it, mutex_post by one that does. */
  ghost function MutexStep(m: Mutex, c: nat): Mutex
    requires c < |m.holding|
  {
    if m.holding[c] then Mutex(MUTEX_UNLOCKED, m.holding[c := false])
    else Mutex(MUTEX_LOCKED, m.holding[c := m.value != MUTEX_LOCKED])
  }

  /** Unlocked exactly when nobody holds it, and never more than one holder. */
  ghost predicate MutexSafe(m: Mutex)
  {
    && (m.value == MUTEX_LOCKED || m.value == MUTEX_UNLOCKED)
    && (m.value == MUTEX_UNLOCKED <==> forall c :: 0 <= c < |m.holding| ==> !m.holding[c])
    && forall b, c :: 0 <= b < |m.holding| && 0 <= c < |m.holding| && m.holding[b] && m.holding[c] ==> b == c
  }

  ghost function MutexRun(m: Mutex, schedule: seq<nat>): (m': Mutex)
    requires Known(schedule, |m.holding|)
    ensures |m'.holding| == |m.holding|
    decreases |schedule|
  {
    if schedule == [] then m else MutexRun(MutexStep(m, schedule[0]), schedule[1..])
  }

  lemma MutexStepSafe(m: Mutex, c: nat)
    requires MutexSafe(m) && c < |m.holding|
    ensures MutexSafe(MutexStep(m, c))
  {
    var m' := MutexStep(m, c);
    if m.holding[c] {
      forall b | 0 <= b < |m'.holding| ensures !m'.holding[b] { }
    } else if m.value != MUTEX_LOCKED {
      assert m'.holding[c];
    } else {
      assert m'.holding == m.holding;
    }
  }

  lemma {:induction false} MutexRunSafe(m: Mutex, schedule: seq<nat>)
    requires MutexSafe(m) && Known(schedule, |m.holding|)
    ensures MutexSafe(MutexRun(m, schedule))
    decreases |schedule|
  {
    if schedule != [] {
      MutexStepSafe(m, schedule[0]);
      MutexRunSafe(MutexStep(m, schedule[0]), schedule[1..]);
    }
  }
}
