/**
 Concurrent LeafCert calls as a transition system (internal/ca/ca.go).

 Each call is a thread with a program counter; any number of threads run under
 any schedule. ca.mu and every hostLock.mu are explicit locks. The code between
 ca.mu.Lock() and ca.mu.Unlock() is one step, taken only by the thread that
 holds ca.mu.
 */
module LeafProtocol {
  import opened Prelude
  import opened Lru

  /** An index into the thread list: one thread per LeafCert call. */
  type Thread = nat

  /** An index into the list of lock objects ever allocated: the identity of a *hostLock. */
  type LockId = nat

  /** A *hostLock: its reference count and the thread holding its mutex. */
  datatype HostLock = HostLock(refs: int, holder: Option<Thread>)

  /** Where a LeafCert call is; the comment names the code the next step runs. */
  datatype PC =
    | WantRegister                                      // lockHost: ca.mu.Lock()
    | Register                                          // lockHost: find or create the lock, refs++, ca.mu.Unlock()
    | WantHost(lock: LockId)                            // lockHost: hlock.mu.Lock()
    | WantFetch(lock: LockId)                             // getCached: ca.mu.Lock()
    | Fetch(lock: LockId)                                 // getCached: body and ca.mu.Unlock()
    | Issue(lock: LockId)                               // ca.issue(host)
    | WantStore(lock: LockId, cert: Cert)                 // putCached: ca.mu.Lock()
    | Store(lock: LockId, cert: Cert)                     // putCached: body and ca.mu.Unlock()
    | Release(lock: LockId, result: Option<Cert>)       // deferred: hlock.mu.Unlock()
    | WantDeregister(lock: LockId, result: Option<Cert>) // deferred: ca.mu.Lock()
    | Deregister(lock: LockId, result: Option<Cert>)    // deferred: refs--, maybe delete, ca.mu.Unlock()
    | Returned(result: Option<Cert>)                    // None is the error return
  {
    /** The thread is at a ca.mu.Lock(). */
    predicate WantsCaMu() {
      WantRegister? || WantFetch? || WantStore? || WantDeregister?
    }

    /** The thread is between ca.mu.Lock() and ca.mu.Unlock(). */
    predicate HoldsCaMu() {
      Register? || Fetch? || Store? || Deregister?
    }

    /** The lock object the thread waits on, holds, or has yet to deregister from. */
    function Lock(): Option<LockId> {
      if WantRegister? || Register? || Returned? then None else Some(lock)
    }

    /** The thread is between hlock.mu.Lock() and hlock.mu.Unlock(). */
    predicate HoldsHost() {
      WantFetch? || Fetch? || Issue? || WantStore? || Store? || Release?
    }

    /** The thread has issued a certificate and not yet stored it. */
    predicate Pending() {
      WantStore? || Store?
    }

    /** An upper bound on the steps left. */
    function StepsLeft(): nat {
      match this
      case WantRegister => 11
      case Register => 10
      case WantHost(_) => 9
      case WantFetch(_) => 8
      case Fetch(_) => 7
      case Issue(_) => 6
      case WantStore(_, _) => 5
      case Store(_, _) => 4
      case Release(_, _) => 3
      case WantDeregister(_, _) => 2
      case Deregister(_, _) => 1
      case Returned(_) => 0
    }
  }

  /** What happened, in order; hits, stores and evictions happen under ca.mu. */
  datatype Event =
    | Hit(thread: Thread, host: Host, cert: Cert)
    | Issued(thread: Thread, host: Host, cert: Cert)
    | IssueFailed(thread: Thread, host: Host)
    | Stored(thread: Thread, host: Host, cert: Cert)
    | Evicted(host: Host, cert: Cert)

  datatype State = State(
    hosts: seq<Host>,           // the argument of each call
    pcs: seq<PC>,
    caMu: Option<Thread>,
    locks: map<Host, LockId>,   // ca.locks
    heap: seq<HostLock>,        // every *hostLock ever allocated
    max: nat,                   // ca.cacheMax
    cache: seq<Entry>,          // ca.cache and ca.cacheLRU
    log: seq<Event>)

  /** Every lock reference points to an allocated lock object. */
  ghost predicate WellFormed(s: State) {
    && |s.hosts| == |s.pcs|
    && (forall t :: 0 <= t < |s.pcs| ==> s.pcs[t].Lock().Some? ==> s.pcs[t].Lock().value < |s.heap|)
    && (forall h :: h in s.locks ==> s.locks[h] < |s.heap|)
  }

  function Init(hosts: seq<Host>, max: nat): State {
    State(hosts, seq(|hosts|, _ => WantRegister), None, map[], [], max, [], [])
  }

  /** Only the two kinds of Lock() can block. */
  ghost predicate Enabled(s: State, t: Thread)
    requires WellFormed(s)
  {
    && t < |s.pcs|
    && !s.pcs[t].Returned?
    && (s.pcs[t].WantsCaMu() ==> s.caMu == None)
    && (s.pcs[t].WantHost? ==> s.heap[s.pcs[t].lock].holder == None)
  }

  // ---- the four critical sections under ca.mu ----------------------------

  /** lockHost, lines 222-227: the lock object for h (created on demand), with one more reference. */
  function RegisterLock(locks: map<Host, LockId>, heap: seq<HostLock>, h: Host)
    : (r: (map<Host, LockId>, seq<HostLock>, LockId))
    requires h in locks ==> locks[h] < |heap|
    ensures r.2 < |r.1|
  {
    if h in locks then
      var l := locks[h];
      (locks, heap[l := heap[l].(refs := heap[l].refs + 1)], l)
    else
      (locks[h := |heap|], heap + [HostLock(1, None)], |heap|)
  }

  /** The release closure, lines 234-237: one reference less; the last one deletes the map entry. */
  function DeregisterLock(locks: map<Host, LockId>, heap: seq<HostLock>, h: Host, l: LockId)
    : (map<Host, LockId>, seq<HostLock>)
    requires l < |heap|
  {
    var refs := heap[l].refs - 1;
    (if refs == 0 then locks - {h} else locks, heap[l := heap[l].(refs := refs)])
  }

  function StoreEvents(t: Thread, h: Host, c: Cert, victim: Option<Entry>): seq<Event> {
    [Stored(t, h, c)] + if victim.Some? then [Evicted(victim.value.host, victim.value.cert)] else []
  }

  // ---- one step ------------------------------------------------------------

  /** A successful ca.mu.Lock(). */
  ghost function EnterStep(s: State, t: Thread): (s': State)
    requires WellFormed(s) && t < |s.pcs| && s.pcs[t].WantsCaMu()
    ensures WellFormed(s')
  {
    var pc := match s.pcs[t]
      case WantRegister => Register
      case WantFetch(l) => Fetch(l)
      case WantStore(l, c) => Store(l, c)
      case WantDeregister(l, r) => Deregister(l, r);
    s.(pcs := s.pcs[t := pc], caMu := Some(t))
  }

  /** The steps of lockHost and of the closure it returns. */
  ghost function LockStep(s: State, t: Thread): (s': State)
    requires WellFormed(s) && t < |s.pcs|
    requires s.pcs[t].Register? || s.pcs[t].WantHost? || s.pcs[t].Release? || s.pcs[t].Deregister?
    ensures WellFormed(s')
  {
    match s.pcs[t]
    case Register =>
      var (locks, heap, l) := RegisterLock(s.locks, s.heap, s.hosts[t]);
      s.(pcs := s.pcs[t := WantHost(l)], caMu := None, locks := locks, heap := heap)
    case WantHost(l) =>
      s.(pcs := s.pcs[t := WantFetch(l)], heap := s.heap[l := s.heap[l].(holder := Some(t))])
    case Release(l, r) =>
      s.(pcs := s.pcs[t := WantDeregister(l, r)], heap := s.heap[l := s.heap[l].(holder := None)])
    case Deregister(l, r) =>
      var (locks, heap) := DeregisterLock(s.locks, s.heap, s.hosts[t], l);
      s.(pcs := s.pcs[t := Returned(r)], caMu := None, locks := locks, heap := heap)
  }

  /** The steps of getCached, issue and putCached. */
  ghost function CacheStep(s: State, t: Thread, issued: Option<Cert>): (s': State)
    requires WellFormed(s) && t < |s.pcs|
    requires s.pcs[t].Fetch? || s.pcs[t].Issue? || s.pcs[t].Store?
    ensures WellFormed(s')
  {
    var h := s.hosts[t];
    match s.pcs[t]
    case Fetch(l) =>
      (match Lookup(s.cache, h)
       case Some(c) =>
         s.(pcs := s.pcs[t := Release(l, Some(c))], caMu := None,
            cache := AfterGet(s.cache, h), log := s.log + [Hit(t, h, c)])
       case None =>
         s.(pcs := s.pcs[t := Issue(l)], caMu := None))
    case Issue(l) =>
      (match issued
       case Some(c) => s.(pcs := s.pcs[t := WantStore(l, c)], log := s.log + [Issued(t, h, c)])
       case None => s.(pcs := s.pcs[t := Release(l, None)], log := s.log + [IssueFailed(t, h)]))
    case Store(l, c) =>
      s.(pcs := s.pcs[t := Release(l, Some(c))], caMu := None,
         cache := AfterPut(s.cache, h, c, s.max),
         log := s.log + StoreEvents(t, h, c, Victim(s.cache, h, c, s.max)))
  }

  /** One step of thread t; issued is what ca.issue returns if this step calls it. */
  ghost function Step(s: State, t: Thread, issued: Option<Cert>): (s': State)
    requires WellFormed(s) && Enabled(s, t)
    ensures WellFormed(s') && s'.hosts == s.hosts && s'.max == s.max
  {
    if s.pcs[t].WantsCaMu() then EnterStep(s, t)
    else if s.pcs[t].Fetch? || s.pcs[t].Issue? || s.pcs[t].Store? then CacheStep(s, t, issued)
    else LockStep(s, t)
  }

  /** A step moves one thread, forward. */
  lemma StepMovesForward(s: State, t: Thread, issued: Option<Cert>)
    requires WellFormed(s) && Enabled(s, t)
    ensures var s' := Step(s, t, issued);
      s'.pcs == s.pcs[t := s'.pcs[t]] && s'.pcs[t].StepsLeft() < s.pcs[t].StepsLeft()
  {
  }

  /** A scheduling decision: which thread steps, and what an issue would return. */
  datatype Choice = Choice(thread: Thread, issued: Option<Cert>)

  /** The state after a schedule; None when it picks a thread that cannot step. */
  ghost function Run(hosts: seq<Host>, max: nat, schedule: seq<Choice>): (r: Option<State>)
    ensures r.Some? ==> WellFormed(r.value) && r.value.hosts == hosts && r.value.max == max
  {
    if schedule == [] then Some(Init(hosts, max))
    else
      var c := schedule[|schedule| - 1];
      match Run(hosts, max, schedule[..|schedule| - 1])
      case None => None
      case Some(s) => if Enabled(s, c.thread) then Some(Step(s, c.thread, c.issued)) else None
  }

  // ---- counting ------------------------------------------------------------

  /** How many threads refer to lock l. */
  function Users(pcs: seq<PC>, l: LockId): nat {
    if pcs == [] then 0
    else (if pcs[0].Lock() == Some(l) then 1 else 0) + Users(pcs[1..], l)
  }

  function TotalSteps(pcs: seq<PC>): nat {
    if pcs == [] then 0 else pcs[0].StepsLeft() + TotalSteps(pcs[1..])
  }

  lemma {:induction false} UsersUpdate(pcs: seq<PC>, t: nat, pc: PC, l: LockId)
    requires t < |pcs|
    ensures Users(pcs[t := pc], l) ==
      Users(pcs, l) - (if pcs[t].Lock() == Some(l) then 1 else 0) + (if pc.Lock() == Some(l) then 1 else 0)
  {
    if t == 0 {
      assert pcs[t := pc][1..] == pcs[1..];
    } else {
      UsersUpdate(pcs[1..], t - 1, pc, l);
      assert pcs[t := pc][1..] == pcs[1..][t - 1 := pc];
    }
  }

  lemma {:induction false} UsersZero(pcs: seq<PC>, l: LockId)
    ensures Users(pcs, l) == 0 <==> forall t :: 0 <= t < |pcs| ==> pcs[t].Lock() != Some(l)
  {
    if pcs != [] {
      UsersZero(pcs[1..], l);
      assert forall t :: 1 <= t < |pcs| ==> pcs[t] == pcs[1..][t - 1];
      assert forall t :: 0 <= t < |pcs| - 1 ==> pcs[1..][t] == pcs[t + 1];
    }
  }

  lemma {:induction false} TotalStepsUpdate(pcs: seq<PC>, t: nat, pc: PC)
    requires t < |pcs|
    ensures TotalSteps(pcs[t := pc]) == TotalSteps(pcs) - pcs[t].StepsLeft() + pc.StepsLeft()
  {
    if t == 0 {
      assert pcs[t := pc][1..] == pcs[1..];
    } else {
      TotalStepsUpdate(pcs[1..], t - 1, pc);
      assert pcs[t := pc][1..] == pcs[1..][t - 1 := pc];
    }
  }

  // ---- the lock invariants ---------------------------------------------------

  /** ca.mu is held exactly by the thread inside a critical section. */
  ghost predicate CaMuInv(pcs: seq<PC>, caMu: Option<Thread>) {
    && (forall t :: 0 <= t < |pcs| ==> (pcs[t].HoldsCaMu() <==> caMu == Some(t)))
    && (caMu.Some? ==> caMu.value < |pcs|)
  }

  /** Every hostLock.mu is held exactly by the thread between its Lock() and Unlock(). */
  ghost predicate HostMuInv(pcs: seq<PC>, heap: seq<HostLock>) {
    && (forall t :: 0 <= t < |pcs| && pcs[t].HoldsHost() ==>
          pcs[t].lock < |heap| && heap[pcs[t].lock].holder == Some(t))
    && (forall l :: 0 <= l < |heap| && heap[l].holder.Some? ==>
          var t := heap[l].holder.value;
          t < |pcs| && pcs[t].HoldsHost() && pcs[t].lock == l)
  }

  /** A thread that refers to a lock refers to the one the lock table has for its host. */
  ghost predicate TableInv(hosts: seq<Host>, pcs: seq<PC>, locks: map<Host, LockId>) {
    && |hosts| == |pcs|
    && (forall t :: 0 <= t < |pcs| && pcs[t].Lock().Some? ==>
          hosts[t] in locks && locks[hosts[t]] == pcs[t].Lock().value)
    && (forall h, k :: h in locks && k in locks && locks[h] == locks[k] ==> h == k)
  }

  /** A reference count is the number of threads that refer to the lock; table entries are in use. */
  ghost predicate RefsInv(pcs: seq<PC>, locks: map<Host, LockId>, heap: seq<HostLock>) {
    && (forall l :: 0 <= l < |heap| ==> heap[l].refs == Users(pcs, l))
    && (forall h :: h in locks ==> locks[h] < |heap| && heap[locks[h]].refs >= 1)
    && (forall t :: 0 <= t < |pcs| && pcs[t].Lock().Some? ==> pcs[t].Lock().value < |heap|)
  }

  ghost predicate HostLocksInv(hosts: seq<Host>, pcs: seq<PC>, locks: map<Host, LockId>, heap: seq<HostLock>) {
    && HostMuInv(pcs, heap)
    && TableInv(hosts, pcs, locks)
    && RefsInv(pcs, locks, heap)
  }

  ghost predicate LockInv(s: State) {
    && WellFormed(s)
    && CaMuInv(s.pcs, s.caMu)
    && HostLocksInv(s.hosts, s.pcs, s.locks, s.heap)
  }

  lemma CaMuStep(s: State, t: Thread, issued: Option<Cert>)
    requires WellFormed(s) && CaMuInv(s.pcs, s.caMu) && Enabled(s, t)
    ensures var s' := Step(s, t, issued); CaMuInv(s'.pcs, s'.caMu)
  {
    var s' := Step(s, t, issued);
    StepMovesForward(s, t, issued);
    assert s'.pcs[t].HoldsCaMu() <==> s'.caMu == Some(t);
    assert s'.caMu == s.caMu || (s.caMu == None && s'.caMu == Some(t)) || (s.caMu == Some(t) && s'.caMu == None);
  }

  /** A step that neither starts nor stops using, holding or owning a lock keeps the lock invariants. */
  lemma QuietStep(hosts: seq<Host>, pcs: seq<PC>, locks: map<Host, LockId>, heap: seq<HostLock>, t: Thread, pc: PC)
    requires t < |pcs| && pc.Lock() == pcs[t].Lock() && pc.HoldsHost() == pcs[t].HoldsHost()
    requires HostLocksInv(hosts, pcs, locks, heap)
    ensures var pcs' := pcs[t := pc];
      HostLocksInv(hosts, pcs', locks, heap)
  {
    forall l | 0 <= l < |heap| ensures Users(pcs[t := pc], l) == Users(pcs, l) {
      UsersUpdate(pcs, t, pc, l);
    }
  }

  /** lockHost under ca.mu: the thread now refers to the lock of its host, and is counted. */
  lemma RegisterStep(hosts: seq<Host>, pcs: seq<PC>, locks: map<Host, LockId>, heap: seq<HostLock>, t: Thread)
    requires t < |pcs| && pcs[t].Register?
    requires HostLocksInv(hosts, pcs, locks, heap)
    ensures var (locks', heap', l) := RegisterLock(locks, heap, hosts[t]);
      var pcs' := pcs[t := WantHost(l)];
      HostLocksInv(hosts, pcs', locks', heap')
  {
    var (locks', heap', l) := RegisterLock(locks, heap, hosts[t]);
    var pcs' := pcs[t := WantHost(l)];
    assert HostMuInv(pcs', heap');
    assert TableInv(hosts, pcs', locks');
    RegisterCounts(hosts, pcs, locks, heap, t);
  }

  lemma RegisterCounts(hosts: seq<Host>, pcs: seq<PC>, locks: map<Host, LockId>, heap: seq<HostLock>, t: Thread)
    requires t < |pcs| == |hosts| && pcs[t].Register?
    requires RefsInv(pcs, locks, heap)
    ensures var (locks', heap', l) := RegisterLock(locks, heap, hosts[t]);
      RefsInv(pcs[t := WantHost(l)], locks', heap')
  {
    var (locks', heap', l) := RegisterLock(locks, heap, hosts[t]);
    UsersZero(pcs, |heap|);
    forall k | 0 <= k < |heap'| ensures heap'[k].refs == Users(pcs[t := WantHost(l)], k) {
      UsersUpdate(pcs, t, WantHost(l), k);
    }
  }

  /** hlock.mu.Lock() succeeding, or hlock.mu.Unlock(). */
  lemma HostMuStep(hosts: seq<Host>, pcs: seq<PC>, locks: map<Host, LockId>, heap: seq<HostLock>, t: Thread, pc: PC)
    requires t < |pcs| && pcs[t].Lock().Some? && pc.Lock() == pcs[t].Lock()
    requires HostLocksInv(hosts, pcs, locks, heap)
    requires heap[pcs[t].lock].holder == if pcs[t].HoldsHost() then Some(t) else None
    ensures var l := pcs[t].lock;
      var heap' := heap[l := heap[l].(holder := if pc.HoldsHost() then Some(t) else None)];
      var pcs' := pcs[t := pc];
      HostLocksInv(hosts, pcs', locks, heap')
  {
    forall k | 0 <= k < |heap| ensures Users(pcs[t := pc], k) == Users(pcs, k) {
      UsersUpdate(pcs, t, pc, k);
    }
  }

  /** The release closure under ca.mu: a table entry disappears only when no thread refers to its lock. */
  lemma DeregisterStep(hosts: seq<Host>, pcs: seq<PC>, locks: map<Host, LockId>, heap: seq<HostLock>, t: Thread)
    requires t < |pcs| && pcs[t].Deregister?
    requires HostLocksInv(hosts, pcs, locks, heap)
    ensures var (locks', heap') := DeregisterLock(locks, heap, hosts[t], pcs[t].lock);
      var pcs' := pcs[t := Returned(pcs[t].result)];
      HostLocksInv(hosts, pcs', locks', heap')
  {
    var l := pcs[t].lock;
    var (locks', heap') := DeregisterLock(locks, heap, hosts[t], l);
    var pcs' := pcs[t := Returned(pcs[t].result)];
    forall k | 0 <= k < |heap| ensures heap'[k].refs == Users(pcs', k) {
      UsersUpdate(pcs, t, Returned(pcs[t].result), k);
    }
    UsersZero(pcs', l);
  }

  lemma InitLockInv(hosts: seq<Host>, max: nat)
    ensures LockInv(Init(hosts, max))
  {
  }

  lemma LockStepKeepsHostLocks(s: State, t: Thread)
    requires WellFormed(s) && HostLocksInv(s.hosts, s.pcs, s.locks, s.heap) && t < |s.pcs|
    requires s.pcs[t].Register? || s.pcs[t].WantHost? || s.pcs[t].Release? || s.pcs[t].Deregister?
    requires s.pcs[t].WantHost? ==> s.heap[s.pcs[t].lock].holder == None
    ensures var s' := LockStep(s, t); HostLocksInv(s'.hosts, s'.pcs, s'.locks, s'.heap)
  {
    if s.pcs[t].Register? {
      RegisterStep(s.hosts, s.pcs, s.locks, s.heap, t);
    } else if s.pcs[t].Deregister? {
      DeregisterStep(s.hosts, s.pcs, s.locks, s.heap, t);
    } else {
      HostMuStep(s.hosts, s.pcs, s.locks, s.heap, t, LockStep(s, t).pcs[t]);
    }
  }

  lemma StepKeepsHostLocks(s: State, t: Thread, issued: Option<Cert>)
    requires WellFormed(s) && HostLocksInv(s.hosts, s.pcs, s.locks, s.heap) && Enabled(s, t)
    ensures var s' := Step(s, t, issued); HostLocksInv(s'.hosts, s'.pcs, s'.locks, s'.heap)
  {
    if s.pcs[t].Register? || s.pcs[t].WantHost? || s.pcs[t].Release? || s.pcs[t].Deregister? {
      LockStepKeepsHostLocks(s, t);
    } else {
      QuietShape(s, t, issued);
      QuietStep(s.hosts, s.pcs, s.locks, s.heap, t, Step(s, t, issued).pcs[t]);
    }
  }

  /** The steps of getCached, issue and putCached leave the lock table and the lock objects alone. */
  lemma QuietShape(s: State, t: Thread, issued: Option<Cert>)
    requires WellFormed(s) && Enabled(s, t)
    requires !(s.pcs[t].Register? || s.pcs[t].WantHost? || s.pcs[t].Release? || s.pcs[t].Deregister?)
    ensures var s' := Step(s, t, issued);
      && s'.locks == s.locks && s'.heap == s.heap
      && s'.pcs == s.pcs[t := s'.pcs[t]]
      && s'.pcs[t].Lock() == s.pcs[t].Lock() && s'.pcs[t].HoldsHost() == s.pcs[t].HoldsHost()
  {
  }

  lemma StepKeepsLockInv(s: State, t: Thread, issued: Option<Cert>)
    requires LockInv(s) && Enabled(s, t)
    ensures LockInv(Step(s, t, issued))
  {
    CaMuStep(s, t, issued);
    StepKeepsHostLocks(s, t, issued);
  }
}
