/**
 What every schedule of concurrent LeafCert calls keeps: the cache is true LRU
 over the touch history, certificates are conserved, and results are explained
 by the log.
 */
module LeafSafety {
  import opened Prelude
  import opened Lru
  import opened LeafProtocol

  // ---- reading the log -------------------------------------------------------

  /** The certificate the log says is cached for h. */
  function Current(log: seq<Event>, h: Host): Option<Cert> {
    if log == [] then None
    else
      var e := log[|log| - 1];
      if e.host == h && e.Stored? then Some(e.cert)
      else if e.host == h && e.Evicted? then None
      else Current(log[..|log| - 1], h)
  }

  /** An event is possible after log: hits and evictions need the entry, stores need its absence. */
  predicate Follows(log: seq<Event>, e: Event) {
    && ((e.Hit? || e.Evicted?) ==> Current(log, e.host) == Some(e.cert))
    && (e.Stored? ==> Current(log, e.host) == None)
  }

  predicate Lawful(log: seq<Event>) {
    log == [] || (Lawful(log[..|log| - 1]) && Follows(log[..|log| - 1], log[|log| - 1]))
  }

  /** The hosts touched (hit or stored), in ca.mu order. */
  function Touches(log: seq<Event>): seq<Host> {
    if log == [] then []
    else
      var e := log[|log| - 1];
      Touches(log[..|log| - 1]) + if e.Hit? || e.Stored? then [e.host] else []
  }

  datatype Kind = Hits | Issues | Failures | Stores | Evictions

  function KindOf(e: Event): Kind {
    match e
    case Hit(_, _, _) => Hits
    case Issued(_, _, _) => Issues
    case IssueFailed(_, _) => Failures
    case Stored(_, _, _) => Stores
    case Evicted(_, _) => Evictions
  }

  /** How many events of a kind concern h. */
  function Count(log: seq<Event>, k: Kind, h: Host): nat {
    if log == [] then 0
    else
      var e := log[|log| - 1];
      Count(log[..|log| - 1], k, h) + if KindOf(e) == k && e.host == h then 1 else 0
  }

  lemma Append(log: seq<Event>, e: Event, h: Host)
    ensures Current(log + [e], h) ==
      if e.host == h && e.Stored? then Some(e.cert)
      else if e.host == h && e.Evicted? then None
      else Current(log, h)
    ensures Lawful(log + [e]) <==> Lawful(log) && Follows(log, e)
    ensures Touches(log + [e]) == Touches(log) + if e.Hit? || e.Stored? then [e.host] else []
    ensures forall k :: Count(log + [e], k, h) == Count(log, k, h) + if KindOf(e) == k && e.host == h then 1 else 0
  {
    assert (log + [e])[..|log|] == log;
  }

  /** In a lawful log, a host is stored once more than it is evicted exactly while it is cached. */
  lemma {:induction false} StoresBalance(log: seq<Event>, h: Host)
    requires Lawful(log)
    ensures Count(log, Stores, h) == Count(log, Evictions, h) + if Current(log, h).Some? then 1 else 0
  {
    if log != [] {
      StoresBalance(log[..|log| - 1], h);
    }
  }

  predicate Touched(e: Event, h: Host, c: Cert) {
    (e.Hit? || e.Stored?) && e.host == h && e.cert == c
  }

  /** Between touches of one host with different certificates, the first certificate was evicted. */
  lemma {:induction false} EvictedBetween(log: seq<Event>, i: nat, j: nat, h: Host, c: Cert, d: Cert)
    requires Lawful(log) && i < j < |log| && c != d
    requires Touched(log[i], h, c) && Touched(log[j], h, d)
    ensures exists k :: i < k < j && log[k] == Evicted(h, c)
  {
    LawfulPrefix(log, j + 1);
    LawfulPrefix(log, j);
    assert log[..j + 1][..j] == log[..j];
    if forall k :: i < k < j ==> log[k] != Evicted(h, c) {
      StillCurrent(log, i, j, h, c);
    }
  }

  lemma {:induction false} LawfulPrefix(log: seq<Event>, n: nat)
    requires Lawful(log) && n <= |log|
    ensures Lawful(log[..n])
  {
    if n < |log| {
      LawfulPrefix(log[..|log| - 1], n);
      assert log[..|log| - 1][..n] == log[..n];
    } else {
      assert log[..n] == log;
    }
  }

  lemma {:induction false} StillCurrent(log: seq<Event>, i: nat, j: nat, h: Host, c: Cert)
    requires Lawful(log) && i < j <= |log| && Touched(log[i], h, c)
    requires forall k :: i < k < j ==> log[k] != Evicted(h, c)
    ensures Current(log[..j], h) == Some(c)
  {
    LawfulPrefix(log, j);
    assert log[..j][..j - 1] == log[..j - 1];
    if j > i + 1 {
      StillCurrent(log, i, j - 1, h, c);
    }
  }

  // ---- the cache invariant -----------------------------------------------------

  /** The result a thread has settled on, once it has. */
  function Outcome(pc: PC): Option<Option<Cert>> {
    if pc.Release? || pc.WantDeregister? || pc.Deregister? || pc.Returned? then Some(pc.result) else None
  }

  /** What the log says about one thread. */
  predicate ThreadExplained(t: Thread, h: Host, pc: PC, log: seq<Event>) {
    && (pc.Pending() ==> Issued(t, h, pc.cert) in log)
    && (Outcome(pc).Some? ==>
          match Outcome(pc).value
          case Some(c) => Hit(t, h, c) in log || Stored(t, h, c) in log
          case None => IssueFailed(t, h) in log)
  }

  /** How many threads have issued a certificate for h and not yet stored it. */
  function Pendings(hosts: seq<Host>, pcs: seq<PC>, h: Host): nat
    requires |hosts| == |pcs|
  {
    if pcs == [] then 0
    else (if hosts[0] == h && pcs[0].Pending() then 1 else 0) + Pendings(hosts[1..], pcs[1..], h)
  }

  ghost predicate ThreadsInv(hosts: seq<Host>, pcs: seq<PC>, cache: seq<Entry>, log: seq<Event>) {
    && |hosts| == |pcs|
    && (forall t :: 0 <= t < |pcs| ==> ThreadExplained(t, hosts[t], pcs[t], log))
    // Nobody caches a host while a thread is issuing for it.
    && (forall t :: 0 <= t < |pcs| && (pcs[t].Issue? || pcs[t].Pending()) ==> Lookup(cache, hosts[t]) == None)
  }

  ghost predicate LogInv(max: nat, cache: seq<Entry>, log: seq<Event>) {
    && Lawful(log)
    && IsLru(cache, max, Touches(log))
    && (forall h :: Lookup(cache, h) == Current(log, h))
  }

  ghost predicate PendingInv(hosts: seq<Host>, pcs: seq<PC>, log: seq<Event>) {
    && |hosts| == |pcs|
    && (forall h :: Count(log, Issues, h) == Count(log, Stores, h) + Pendings(hosts, pcs, h))
  }

  ghost predicate CacheInv(s: State) {
    && LogInv(s.max, s.cache, s.log)
    && ThreadsInv(s.hosts, s.pcs, s.cache, s.log)
    && PendingInv(s.hosts, s.pcs, s.log)
  }

  /** At most one thread per host is between acquiring and releasing the host lock. */
  lemma MutualExclusion(s: State, t: Thread, u: Thread)
    requires LockInv(s) && t < |s.pcs| && u < |s.pcs|
    requires s.hosts[t] == s.hosts[u] && s.pcs[t].HoldsHost() && s.pcs[u].HoldsHost()
    ensures t == u
  {
    assert s.pcs[t].Lock() == s.pcs[u].Lock();
  }

  lemma {:induction false} PendingsUpdate(hosts: seq<Host>, pcs: seq<PC>, t: nat, pc: PC, h: Host)
    requires |hosts| == |pcs| && t < |pcs|
    ensures Pendings(hosts, pcs[t := pc], h) == Pendings(hosts, pcs, h)
      - (if hosts[t] == h && pcs[t].Pending() then 1 else 0) + (if hosts[t] == h && pc.Pending() then 1 else 0)
  {
    if t == 0 {
      assert pcs[t := pc][1..] == pcs[1..];
    } else {
      PendingsUpdate(hosts[1..], pcs[1..], t - 1, pc, h);
      assert pcs[t := pc][1..] == pcs[1..][t - 1 := pc];
    }
  }

  /** At most one thread is pending for a host, because it holds the host lock. */
  lemma {:induction false} PendingsBound(s: State, h: Host, n: nat)
    requires LockInv(s) && n <= |s.pcs|
    ensures Pendings(s.hosts[n..], s.pcs[n..], h) <= 1
    ensures Pendings(s.hosts[n..], s.pcs[n..], h) == 1 <==>
      exists t :: n <= t < |s.pcs| && s.hosts[t] == h && s.pcs[t].Pending()
    decreases |s.pcs| - n
  {
    if n < |s.pcs| {
      PendingsBound(s, h, n + 1);
      assert s.hosts[n..][1..] == s.hosts[n + 1..] && s.pcs[n..][1..] == s.pcs[n + 1..];
      if s.hosts[n] == h && s.pcs[n].Pending() {
        forall t | n + 1 <= t < |s.pcs| && s.hosts[t] == h && s.pcs[t].Pending() ensures false {
          MutualExclusion(s, n, t);
        }
      }
    }
  }

  // ---- every step keeps it -------------------------------------------------------

  lemma StepKeepsLog(s: State, t: Thread, issued: Option<Cert>)
    requires WellFormed(s) && LogInv(s.max, s.cache, s.log) && Enabled(s, t)
    requires ThreadsInv(s.hosts, s.pcs, s.cache, s.log)
    ensures var s' := Step(s, t, issued); LogInv(s'.max, s'.cache, s'.log)
  {
    var h := s.hosts[t];
    if s.pcs[t].Fetch? {
      if Lookup(s.cache, h).Some? {
        HitKeepsLog(s.max, s.cache, s.log, t, h);
      }
    } else if s.pcs[t].Issue? {
      IssueKeepsLog(s.max, s.cache, s.log, if issued.Some? then Issued(t, h, issued.value) else IssueFailed(t, h));
    } else if s.pcs[t].Store? {
      StoreKeepsLog(s.max, s.cache, s.log, t, h, s.pcs[t].cert);
    }
  }

  lemma IssueKeepsLog(max: nat, cache: seq<Entry>, log: seq<Event>, e: Event)
    requires LogInv(max, cache, log) && (e.Issued? || e.IssueFailed?)
    ensures LogInv(max, cache, log + [e])
  {
    Append(log, e, e.host);
    assert Touches(log + [e]) == Touches(log);
    forall x ensures Lookup(cache, x) == Current(log + [e], x) {
      Append(log, e, x);
    }
  }

  lemma HitKeepsLog(max: nat, cache: seq<Entry>, log: seq<Event>, t: Thread, h: Host)
    requires LogInv(max, cache, log) && Lookup(cache, h).Some?
    ensures LogInv(max, AfterGet(cache, h), log + [Hit(t, h, Lookup(cache, h).value)])
  {
    var e := Hit(t, h, Lookup(cache, h).value);
    GetKeepsLru(cache, max, Touches(log), h);
    Append(log, e, h);
    forall x ensures Lookup(AfterGet(cache, h), x) == Current(log + [e], x) {
      GetLookup(cache, h, x);
      Append(log, e, x);
    }
  }

  lemma StoreKeepsLog(max: nat, cache: seq<Entry>, log: seq<Event>, t: Thread, h: Host, c: Cert)
    requires LogInv(max, cache, log) && Lookup(cache, h) == None
    ensures LogInv(max, AfterPut(cache, h, c, max), log + StoreEvents(t, h, c, Victim(cache, h, c, max)))
  {
    PutKeepsLru(cache, max, Touches(log), h, c);
    StoreIsLawful(max, cache, log, t, h, c);
    forall x
      ensures Lookup(AfterPut(cache, h, c, max), x) ==
        Current(log + StoreEvents(t, h, c, Victim(cache, h, c, max)), x)
    {
      PutLookup(cache, h, c, max, x);
      CurrentAfterStore(log, t, h, c, Victim(cache, h, c, max), x);
    }
  }

  lemma StoreIsLawful(max: nat, cache: seq<Entry>, log: seq<Event>, t: Thread, h: Host, c: Cert)
    requires Distinct(Hosts(cache)) && Lawful(log) && Lookup(cache, h) == None
    requires forall x :: Lookup(cache, x) == Current(log, x)
    ensures var log' := log + StoreEvents(t, h, c, Victim(cache, h, c, max));
      Lawful(log') && Touches(log') == Touches(log) + [h]
  {
    var victim := Victim(cache, h, c, max);
    Append(log, Stored(t, h, c), h);
    if victim.Some? {
      PutLookup(cache, h, c, max, h);
      assert Lookup(cache, victim.value.host) == Current(log, victim.value.host);
      VictimIsCurrent(log, t, h, c, victim.value);
    }
  }

  lemma VictimIsCurrent(log: seq<Event>, t: Thread, h: Host, c: Cert, v: Entry)
    requires Lawful(log + [Stored(t, h, c)])
    requires if v.host == h then v.cert == c else Current(log, v.host) == Some(v.cert)
    ensures var log' := log + StoreEvents(t, h, c, Some(v));
      Lawful(log') && Touches(log') == Touches(log + [Stored(t, h, c)])
  {
    var log1, e := log + [Stored(t, h, c)], Evicted(v.host, v.cert);
    Append(log, Stored(t, h, c), v.host);
    Append(log1, e, h);
    assert log + StoreEvents(t, h, c, Some(v)) == log1 + [e];
    assert Touches(log1 + [e]) == Touches(log1);
  }

  lemma CurrentAfterStore(log: seq<Event>, t: Thread, h: Host, c: Cert, victim: Option<Entry>, x: Host)
    ensures Current(log + StoreEvents(t, h, c, victim), x) ==
      (match victim
       case Some(v) => if x == v.host then None else if x == h then Some(c) else Current(log, x)
       case None => if x == h then Some(c) else Current(log, x))
  {
    var log1 := log + [Stored(t, h, c)];
    Append(log, Stored(t, h, c), x);
    if victim.Some? {
      var e := Evicted(victim.value.host, victim.value.cert);
      Append(log1, e, x);
      assert log + StoreEvents(t, h, c, victim) == log1 + [e];
    } else {
      assert log + StoreEvents(t, h, c, victim) == log1;
    }
  }

  lemma StepKeepsThreads(s: State, t: Thread, issued: Option<Cert>)
    requires LockInv(s) && Distinct(Hosts(s.cache)) && Enabled(s, t)
    requires ThreadsInv(s.hosts, s.pcs, s.cache, s.log)
    ensures var s' := Step(s, t, issued); ThreadsInv(s'.hosts, s'.pcs, s'.cache, s'.log)
  {
    var s' := Step(s, t, issued);
    StepMovesForward(s, t, issued);
    LogGrows(s, t, issued);
    forall u | 0 <= u < |s.pcs| && (s'.pcs[u].Issue? || s'.pcs[u].Pending())
      ensures Lookup(s'.cache, s.hosts[u]) == None
    {
      StaysAbsent(s, t, issued, u);
    }
    forall u | 0 <= u < |s.pcs| ensures ThreadExplained(u, s.hosts[u], s'.pcs[u], s'.log) {
      assert ThreadExplained(u, s.hosts[u], s.pcs[u], s.log);
    }
  }

  lemma StaysAbsent(s: State, t: Thread, issued: Option<Cert>, u: Thread)
    requires LockInv(s) && Distinct(Hosts(s.cache)) && Enabled(s, t) && u < |s.pcs|
    requires s.pcs[u].Issue? || s.pcs[u].Pending() ==> Lookup(s.cache, s.hosts[u]) == None
    ensures var s' := Step(s, t, issued);
      s'.pcs[u].Issue? || s'.pcs[u].Pending() ==> Lookup(s'.cache, s.hosts[u]) == None
  {
    StepMovesForward(s, t, issued);
    if s.pcs[t].Fetch? {
      GetLookup(s.cache, s.hosts[t], s.hosts[u]);
    } else if s.pcs[t].Store? && (s.pcs[u].Issue? || s.pcs[u].Pending()) && u != t {
      assert s.hosts[u] != s.hosts[t] by {
        if s.hosts[u] == s.hosts[t] {
          MutualExclusion(s, t, u);
        }
      }
      AbsentAfterPut(s.cache, s.hosts[t], s.pcs[t].cert, s.max, s.hosts[u]);
    }
  }

  /** Storing a certificate for h caches no other host. */
  lemma AbsentAfterPut(cache: seq<Entry>, h: Host, c: Cert, max: nat, x: Host)
    requires Distinct(Hosts(cache)) && Lookup(cache, x) == None && x != h
    ensures Lookup(AfterPut(cache, h, c, max), x) == None
  {
    PutLookup(cache, h, c, max, x);
  }

  /** The log only grows, and explains the thread that stepped. */
  lemma LogGrows(s: State, t: Thread, issued: Option<Cert>)
    requires WellFormed(s) && Enabled(s, t) && ThreadExplained(t, s.hosts[t], s.pcs[t], s.log)
    ensures var s' := Step(s, t, issued);
      && ThreadExplained(t, s.hosts[t], s'.pcs[t], s'.log)
      && (forall e :: e in s.log ==> e in s'.log)
  {
    var s' := Step(s, t, issued);
    if s.pcs[t].Store? {
      assert Stored(t, s.hosts[t], s.pcs[t].cert) in
        StoreEvents(t, s.hosts[t], s.pcs[t].cert, Victim(s.cache, s.hosts[t], s.pcs[t].cert, s.max));
    } else if s'.log != s.log {
      assert s'.log[|s.log|] in s'.log;
    }
  }

  lemma StepKeepsPending(s: State, t: Thread, issued: Option<Cert>)
    requires LockInv(s) && CacheInv(s) && Enabled(s, t)
    ensures var s' := Step(s, t, issued); PendingInv(s'.hosts, s'.pcs, s'.log)
  {
    var s' := Step(s, t, issued);
    StepMovesForward(s, t, issued);
    forall h ensures Count(s'.log, Issues, h) == Count(s'.log, Stores, h) + Pendings(s'.hosts, s'.pcs, h) {
      PendingsUpdate(s.hosts, s.pcs, t, s'.pcs[t], h);
      LogCounts(s, t, issued, h);
    }
  }

  /** The events a step adds to the log. */
  ghost function NewEvents(s: State, t: Thread, issued: Option<Cert>): seq<Event>
    requires WellFormed(s) && t < |s.pcs|
  {
    var h := s.hosts[t];
    match s.pcs[t]
    case Fetch(_) => if Lookup(s.cache, h).Some? then [Hit(t, h, Lookup(s.cache, h).value)] else []
    case Issue(_) => [if issued.Some? then Issued(t, h, issued.value) else IssueFailed(t, h)]
    case Store(_, c) => StoreEvents(t, h, c, Victim(s.cache, h, c, s.max))
    case _ => []
  }

  lemma LogOfStep(s: State, t: Thread, issued: Option<Cert>)
    requires WellFormed(s) && Enabled(s, t)
    ensures Step(s, t, issued).log == s.log + NewEvents(s, t, issued)
  {
  }

  /** A step makes its thread pending when it issues, and ends that when it stores. */
  lemma PendingOfStep(s: State, t: Thread, issued: Option<Cert>)
    requires WellFormed(s) && Enabled(s, t)
    ensures var s' := Step(s, t, issued);
      s'.pcs[t].Pending() <==> (s.pcs[t].Issue? && issued.Some?) || s.pcs[t].WantStore?
  {
  }

  /** A step adds one issue when it makes its thread pending, one store when it ends that. */
  lemma LogCounts(s: State, t: Thread, issued: Option<Cert>, h: Host)
    requires WellFormed(s) && Enabled(s, t)
    ensures var s' := Step(s, t, issued);
      && Count(s'.log, Issues, h) == Count(s.log, Issues, h)
           + (if s.hosts[t] == h && !s.pcs[t].Pending() && s'.pcs[t].Pending() then 1 else 0)
      && Count(s'.log, Stores, h) == Count(s.log, Stores, h)
           + (if s.hosts[t] == h && s.pcs[t].Pending() && !s'.pcs[t].Pending() then 1 else 0)
  {
    LogOfStep(s, t, issued);
    PendingOfStep(s, t, issued);
    var x, events := s.hosts[t], NewEvents(s, t, issued);
    if s.pcs[t].Store? {
      CountsAfterStore(s.log, t, x, s.pcs[t].cert, Victim(s.cache, x, s.pcs[t].cert, s.max), h);
    } else if events == [] {
      assert s.log + events == s.log;
    } else {
      Append(s.log, events[0], h);
      assert events == [events[0]];
    }
  }

  lemma CountsAfterStore(log: seq<Event>, t: Thread, x: Host, c: Cert, victim: Option<Entry>, h: Host)
    ensures var log' := log + StoreEvents(t, x, c, victim);
      && Count(log', Issues, h) == Count(log, Issues, h)
      && Count(log', Stores, h) == Count(log, Stores, h) + if x == h then 1 else 0
  {
    var log1 := log + [Stored(t, x, c)];
    Append(log, Stored(t, x, c), h);
    if victim.Some? {
      var e := Evicted(victim.value.host, victim.value.cert);
      Append(log1, e, h);
      assert log + StoreEvents(t, x, c, victim) == log1 + [e];
    } else {
      assert log + StoreEvents(t, x, c, victim) == log1;
    }
  }

  lemma {:induction false} InitCounts(n: nat, hosts: seq<Host>, h: Host)
    requires |hosts| == n
    ensures Pendings(hosts, seq(n, _ => WantRegister), h) == 0
  {
    if n > 0 {
      InitCounts(n - 1, hosts[1..], h);
      assert seq(n, _ => WantRegister)[1..] == seq(n - 1, _ => WantRegister);
    }
  }

  lemma InitCacheInv(hosts: seq<Host>, max: nat)
    ensures CacheInv(Init(hosts, max))
  {
    forall h ensures Pendings(hosts, Init(hosts, max).pcs, h) == 0 {
      InitCounts(|hosts|, hosts, h);
    }
  }

  /** Safety of every run: whatever the schedule did, both invariants hold in the state it reached. */
  lemma {:induction false} RunIsSafe(hosts: seq<Host>, max: nat, schedule: seq<Choice>)
    requires Run(hosts, max, schedule).Some?
    ensures LockInv(Run(hosts, max, schedule).value) && CacheInv(Run(hosts, max, schedule).value)
  {
    if schedule == [] {
      InitLockInv(hosts, max);
      InitCacheInv(hosts, max);
    } else {
      var c := schedule[|schedule| - 1];
      RunIsSafe(hosts, max, schedule[..|schedule| - 1]);
      var s := Run(hosts, max, schedule[..|schedule| - 1]).value;
      StepKeepsLockInv(s, c.thread, c.issued);
      StepKeepsLog(s, c.thread, c.issued);
      StepKeepsThreads(s, c.thread, c.issued);
      StepKeepsPending(s, c.thread, c.issued);
    }
  }

  // ---- what that means for callers ------------------------------------------------

  /**
   The lock object a thread waits on, holds or has yet to deregister from is the
   one in the lock table, its reference count is the number of such threads, and
   two threads of one host are never both inside the host lock.
   */
  lemma HostLockDiscipline(hosts: seq<Host>, max: nat, schedule: seq<Choice>, t: Thread, u: Thread)
    requires Run(hosts, max, schedule).Some? && t < |hosts| && u < |hosts|
    ensures var s := Run(hosts, max, schedule).value;
      && |s.pcs| == |hosts|
      && (s.pcs[t].Lock().Some? ==>
            && hosts[t] in s.locks && s.locks[hosts[t]] == s.pcs[t].Lock().value
            && s.heap[s.locks[hosts[t]]].refs == Users(s.pcs, s.locks[hosts[t]]))
      && (s.pcs[t].HoldsHost() && s.pcs[u].HoldsHost() && hosts[t] == hosts[u] ==> t == u)
      && (s.pcs[t].HoldsCaMu() && s.pcs[u].HoldsCaMu() ==> t == u)
  {
    RunIsSafe(hosts, max, schedule);
    var s := Run(hosts, max, schedule).value;
    if s.pcs[t].HoldsHost() && s.pcs[u].HoldsHost() && hosts[t] == hosts[u] {
      MutualExclusion(s, t, u);
    }
  }

  /** A table entry is deleted exactly when the departing thread was the last to refer to its lock. */
  lemma DeleteIsLast(s: State, t: Thread, issued: Option<Cert>)
    requires LockInv(s) && Enabled(s, t) && s.pcs[t].Deregister?
    ensures s.hosts[t] in s.locks
    ensures s.hosts[t] !in Step(s, t, issued).locks <==>
      forall u :: 0 <= u < |s.pcs| && u != t ==> s.pcs[u].Lock() != Some(s.pcs[t].lock)
  {
    var l := s.pcs[t].lock;
    var pcs' := s.pcs[t := Returned(s.pcs[t].result)];
    assert s.pcs[t].Lock() == Some(l);
    UsersUpdate(s.pcs, t, Returned(s.pcs[t].result), l);
    UsersZero(pcs', l);
    assert pcs'[t].Lock() == None;
    assert forall u :: 0 <= u < |s.pcs| && u != t ==> pcs'[u].Lock() == s.pcs[u].Lock();
  }

  /** No deadlock: while some call is unfinished, some thread can step. */
  lemma Progress(s: State, t: Thread)
    requires LockInv(s) && t < |s.pcs| && !s.pcs[t].Returned?
    ensures exists u :: 0 <= u < |s.pcs| && Enabled(s, u)
  {
    if s.caMu.Some? {
      assert Enabled(s, s.caMu.value);
    } else if s.pcs[t].WantHost? && s.heap[s.pcs[t].lock].holder.Some? {
      assert Enabled(s, s.heap[s.pcs[t].lock].holder.value);
    } else {
      assert Enabled(s, t);
    }
  }

  lemma {:induction false} InitSteps(n: nat)
    ensures TotalSteps(seq(n, _ => WantRegister)) == 11 * n
  {
    if n > 0 {
      InitSteps(n - 1);
      assert seq(n, _ => WantRegister)[1..] == seq(n - 1, _ => WantRegister);
    }
  }

  /** Every schedule is finite: each call takes at most eleven steps, however the calls interleave. */
  lemma {:induction false} SchedulesAreShort(hosts: seq<Host>, max: nat, schedule: seq<Choice>)
    requires Run(hosts, max, schedule).Some?
    ensures |schedule| + TotalSteps(Run(hosts, max, schedule).value.pcs) <= 11 * |hosts|
  {
    if schedule == [] {
      InitSteps(|hosts|);
    } else {
      var c := schedule[|schedule| - 1];
      SchedulesAreShort(hosts, max, schedule[..|schedule| - 1]);
      var s := Run(hosts, max, schedule[..|schedule| - 1]).value;
      StepMovesForward(s, c.thread, c.issued);
      TotalStepsUpdate(s.pcs, c.thread, Step(s, c.thread, c.issued).pcs[c.thread]);
    }
  }

  ghost predicate Finished(s: State) {
    forall t :: 0 <= t < |s.pcs| ==> s.pcs[t].Returned?
  }

  /** When every call has returned, no lock is held and no lock object is in use. */
  lemma NothingHeld(s: State)
    requires LockInv(s) && Finished(s)
    ensures s.locks == map[] && s.caMu == None
    ensures forall l :: 0 <= l < |s.heap| ==> s.heap[l] == HostLock(0, None)
  {
    forall l | 0 <= l < |s.heap| ensures s.heap[l] == HostLock(0, None) {
      UsersZero(s.pcs, l);
    }
    assert s.locks.Keys == {};
  }

  ghost predicate RunCanGoOn(hosts: seq<Host>, max: nat, schedule: seq<Choice>, t: Thread) {
    Run(hosts, max, schedule).Some? && Enabled(Run(hosts, max, schedule).value, t)
  }

  lemma SomeoneCanGoOn(hosts: seq<Host>, max: nat, schedule: seq<Choice>, t: Thread)
    requires Run(hosts, max, schedule).Some? && LockInv(Run(hosts, max, schedule).value)
    requires t < |hosts| && !Run(hosts, max, schedule).value.pcs[t].Returned?
    ensures exists u :: RunCanGoOn(hosts, max, schedule, u)
  {
    var s := Run(hosts, max, schedule).value;
    Progress(s, t);
    var u :| 0 <= u < |s.pcs| && Enabled(s, u);
    assert RunCanGoOn(hosts, max, schedule, u);
  }

  /** A schedule that cannot go on has finished every call and left no lock behind. */
  lemma StuckMeansFinished(hosts: seq<Host>, max: nat, schedule: seq<Choice>)
    requires Run(hosts, max, schedule).Some?
    requires forall t :: !RunCanGoOn(hosts, max, schedule, t)
    ensures var s := Run(hosts, max, schedule).value;
      && Finished(s)
      && s.locks == map[] && s.caMu == None
      && (forall l :: 0 <= l < |s.heap| ==> s.heap[l] == HostLock(0, None))
  {
    RunIsSafe(hosts, max, schedule);
    var s := Run(hosts, max, schedule).value;
    forall t | 0 <= t < |s.pcs| ensures s.pcs[t].Returned? {
      if !s.pcs[t].Returned? {
        SomeoneCanGoOn(hosts, max, schedule, t);
      }
    }
    NothingHeld(s);
  }

  ghost predicate RunsToEnd(hosts: seq<Host>, max: nat, schedule: seq<Choice>) {
    Run(hosts, max, schedule).Some? && Finished(Run(hosts, max, schedule).value)
  }

  lemma OneMoreStep(hosts: seq<Host>, max: nat, schedule: seq<Choice>, c: Choice)
    requires RunCanGoOn(hosts, max, schedule, c.thread)
    ensures Run(hosts, max, schedule + [c]).Some?
  {
    assert (schedule + [c])[..|schedule|] == schedule;
  }

  /** From every reachable state the calls can be run to completion. */
  lemma {:induction false} CanFinish(hosts: seq<Host>, max: nat, schedule: seq<Choice>) returns (more: seq<Choice>)
    requires Run(hosts, max, schedule).Some?
    ensures RunsToEnd(hosts, max, schedule + more)
    decreases 11 * |hosts| - |schedule|
  {
    hide Run, TotalSteps, Enabled, Finished;
    if t :| RunCanGoOn(hosts, max, schedule, t) {
      var c := Choice(t, None);
      OneMoreStep(hosts, max, schedule, c);
      SchedulesAreShort(hosts, max, schedule + [c]);
      var rest := CanFinish(hosts, max, schedule + [c]);
      more := [c] + rest;
      assert schedule + more == schedule + [c] + rest;
    } else {
      StuckMeansFinished(hosts, max, schedule);
      more := [];
      assert schedule + more == schedule;
    }
  }

  /**
   Conservation: successful issues for a host equal its evictions, plus one while
   it is cached, plus one while a thread has issued for it and not yet stored.
   Nobody stores over an existing entry.
   */
  lemma IssueConservation(hosts: seq<Host>, max: nat, schedule: seq<Choice>, h: Host)
    requires Run(hosts, max, schedule).Some?
    ensures var s := Run(hosts, max, schedule).value;
      && |s.pcs| == |hosts|
      && Count(s.log, Issues, h) == Count(s.log, Evictions, h)
           + (if Lookup(s.cache, h).Some? then 1 else 0)
           + (if exists t :: 0 <= t < |hosts| && hosts[t] == h && s.pcs[t].Pending() then 1 else 0)
      && (forall t :: 0 <= t < |hosts| && s.pcs[t].Store? ==> Lookup(s.cache, hosts[t]) == None)
  {
    RunIsSafe(hosts, max, schedule);
    var s := Run(hosts, max, schedule).value;
    StoresBalance(s.log, h);
    assert Count(s.log, Issues, h) == Count(s.log, Stores, h) + Pendings(s.hosts, s.pcs, h);
    PendingsBound(s, h, 0);
    assert s.hosts[0..] == s.hosts && s.pcs[0..] == s.pcs;
    assert Lookup(s.cache, h) == Current(s.log, h);
  }

  /** After any interleaving the cache is exactly the max most recently touched distinct hosts. */
  lemma CacheIsLru(hosts: seq<Host>, max: nat, schedule: seq<Choice>)
    requires Run(hosts, max, schedule).Some?
    ensures var s := Run(hosts, max, schedule).value;
      && Distinct(Hosts(s.cache)) && |s.cache| <= max
      && Hosts(s.cache) == Take(max, Recency(Touches(s.log)))
      && (forall h :: Lookup(s.cache, h) == Current(s.log, h))
  {
    RunIsSafe(hosts, max, schedule);
  }

  predicate TouchedBy(e: Event, t: Thread, h: Host, c: Cert) {
    Touched(e, h, c) && e.thread == t
  }

  /** The log has the eviction of c, for h, strictly between two touches of h by the two threads. */
  ghost predicate EvictedInBetween(log: seq<Event>, t: Thread, u: Thread, h: Host, c: Cert, d: Cert) {
    exists i, k, j :: 0 <= i < k < j < |log|
      && TouchedBy(log[i], t, h, c) && TouchedBy(log[j], u, h, d) && log[k] == Evicted(h, c)
  }

  lemma DifferenceNeedsEviction(log: seq<Event>, t: Thread, u: Thread, h: Host, c: Cert, d: Cert)
    requires Lawful(log) && c != d
    requires Hit(t, h, c) in log || Stored(t, h, c) in log
    requires Hit(u, h, d) in log || Stored(u, h, d) in log
    ensures EvictedInBetween(log, t, u, h, c, d) || EvictedInBetween(log, u, t, h, d, c)
  {
    var e := if Hit(t, h, c) in log then Hit(t, h, c) else Stored(t, h, c);
    var f := if Hit(u, h, d) in log then Hit(u, h, d) else Stored(u, h, d);
    var i :| 0 <= i < |log| && log[i] == e;
    var j :| 0 <= j < |log| && log[j] == f;
    assert TouchedBy(log[i], t, h, c) && TouchedBy(log[j], u, h, d);
    if i < j {
      EvictedBetween(log, i, j, h, c, d);
    } else if j < i {
      EvictedBetween(log, j, i, h, d, c);
    }
  }

  /** Two calls for one host return different certificates only if the earlier one was evicted in between. */
  lemma DifferentOnlyAfterEviction(hosts: seq<Host>, max: nat, schedule: seq<Choice>, t: Thread, u: Thread, c: Cert, d: Cert)
    requires Run(hosts, max, schedule).Some? && t < |hosts| && u < |hosts| && hosts[t] == hosts[u] && c != d
    requires var pcs := Run(hosts, max, schedule).value.pcs;
      |pcs| == |hosts| && pcs[t] == Returned(Some(c)) && pcs[u] == Returned(Some(d))
    ensures var log := Run(hosts, max, schedule).value.log;
      EvictedInBetween(log, t, u, hosts[t], c, d) || EvictedInBetween(log, u, t, hosts[t], d, c)
  {
    RunIsSafe(hosts, max, schedule);
    var s := Run(hosts, max, schedule).value;
    assert ThreadExplained(t, hosts[t], s.pcs[t], s.log) && ThreadExplained(u, hosts[u], s.pcs[u], s.log);
    DifferenceNeedsEviction(s.log, t, u, hosts[t], c, d);
  }

  /** A returned certificate was hit or stored by that very call; an error is the failure of its own issue. */
  lemma ResultsAreExplained(hosts: seq<Host>, max: nat, schedule: seq<Choice>, t: Thread)
    requires Run(hosts, max, schedule).Some? && t < |hosts|
    ensures var s := Run(hosts, max, schedule).value;
      && |s.pcs| == |hosts|
      && (s.pcs[t] == Returned(None) ==> IssueFailed(t, hosts[t]) in s.log)
      && (forall c :: s.pcs[t] == Returned(Some(c)) ==> Hit(t, hosts[t], c) in s.log || Stored(t, hosts[t], c) in s.log)
  {
    RunIsSafe(hosts, max, schedule);
    var s := Run(hosts, max, schedule).value;
    assert ThreadExplained(t, hosts[t], s.pcs[t], s.log);
  }
}
