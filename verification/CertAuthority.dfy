/**
 The CA object of internal/ca/ca.go: the certificate cache as a map into a doubly
 linked recency list, and the table of reference-counted host locks, updated in
 place. Every method is proved against the value-level functions that Lru and
 LeafProtocol reason about.
 */
module CertAuthority {
  import opened Prelude
  import opened Lru
  import opened LinkedList
  import P = LeafProtocol

  class HostLock {
    ghost const id: nat             // position in allocation order
    var refs: int
    var holder: Option<P.Thread>    // the state of hostLock.mu

    constructor (ghost id: nat)
      ensures this.id == id && refs == 0 && holder == None
    {
      this.id, refs, holder := id, 0, None;
    }
  }

  /** The map has exactly the hosts of the entries, each with its own node. */
  ghost predicate IsIndex(cache: map<Host, Element<Entry>>, entries: seq<Entry>, nodes: seq<Element<Entry>>) {
    && |entries| == |nodes|
    && (forall i :: 0 <= i < |entries| ==> entries[i].host in cache && cache[entries[i].host] == nodes[i])
    && (forall h :: h in cache ==> h in Hosts(entries))
  }

  /** The element at k moved to the front. */
  ghost function ToFront<T>(s: seq<T>, k: nat): seq<T>
    requires k < |s|
  {
    [s[k]] + (s[..k] + s[k + 1..])
  }

  lemma ToFrontAt<T>(s: seq<T>, k: nat, i: nat)
    requires k < |s| && i < |s|
    ensures ToFront(s, k)[i] == s[if i == 0 then k else if i <= k then i - 1 else i]
  {
  }

  lemma ToFrontKeepsIndex(cache: map<Host, Element<Entry>>, entries: seq<Entry>, nodes: seq<Element<Entry>>, k: nat)
    requires IsIndex(cache, entries, nodes) && k < |entries|
    ensures IsIndex(cache, ToFront(entries, k), ToFront(nodes, k))
  {
    forall h | h in cache ensures h in Hosts(ToFront(entries, k)) {
      var i :| 0 <= i < |entries| && Hosts(entries)[i] == h;
      var j := if i == k then 0 else if i < k then i + 1 else i;
      ToFrontAt(entries, k, j);
      assert Hosts(ToFront(entries, k))[j] == h;
    }
    forall i | 0 <= i < |entries|
      ensures ToFront(entries, k)[i].host in cache && cache[ToFront(entries, k)[i].host] == ToFront(nodes, k)[i]
    {
      ToFrontAt(entries, k, i);
      ToFrontAt(nodes, k, i);
    }
  }

  lemma RecertKeepsIndex(cache: map<Host, Element<Entry>>, entries: seq<Entry>, nodes: seq<Element<Entry>>, k: nat,
                         cert: Cert)
    requires IsIndex(cache, entries, nodes) && k < |entries|
    ensures IsIndex(cache, entries[k := entries[k].(cert := cert)], nodes)
  {
    assert Hosts(entries[k := entries[k].(cert := cert)]) == Hosts(entries);
  }

  lemma DropLastKeepsIndex(cache: map<Host, Element<Entry>>, entries: seq<Entry>, nodes: seq<Element<Entry>>)
    requires IsIndex(cache, entries, nodes) && entries != [] && Distinct(Hosts(entries))
    ensures var n := |entries| - 1;
      IsIndex(cache - {entries[n].host}, entries[..n], nodes[..n])
  {
    var n := |entries| - 1;
    assert Hosts(entries)[n] == entries[n].host;
    forall i | 0 <= i < n ensures entries[i].host != entries[n].host {
      assert Hosts(entries)[i] == entries[i].host;
    }
    forall h | h in cache && h != entries[n].host ensures h in Hosts(entries[..n]) {
      var i :| 0 <= i < |entries| && Hosts(entries)[i] == h;
      assert Hosts(entries[..n])[i] == h;
    }
  }

  class CA {
    const cacheMax: nat
    const cacheLRU: List<Entry>
    var cache: map<Host, Element<Entry>>
    var locks: map<Host, HostLock>
    ghost var entries: seq<Entry>      // the cache as a value, most recently used first
    ghost var lockObjs: seq<HostLock>  // every lock object ever allocated

    ghost predicate CacheValid()
      reads this`cache, this`entries, cacheLRU, cacheLRU.root, cacheLRU.nodes
    {
      Indexed() && |entries| <= cacheMax
    }

    /** The list holds the entries, in order, and the map finds each node by its host. */
    ghost predicate Indexed()
      reads this`cache, this`entries, cacheLRU, cacheLRU.root, cacheLRU.nodes
    {
      && cacheLRU.Valid()
      && IsIndex(cache, entries, cacheLRU.nodes)
      && (forall i :: 0 <= i < |entries| ==> cacheLRU.nodes[i].value == Some(entries[i]))
    }

    ghost predicate LocksValid()
      reads this`locks, this`lockObjs, lockObjs
    {
      && (forall i :: 0 <= i < |lockObjs| ==> lockObjs[i].id == i)
      && (forall h :: h in locks ==> Known(locks[h]))
    }

    /** The lock object a call for h would change; empty while there is none. */
    ghost function LockOf(h: Host): set<HostLock>
      reads this`locks
    {
      if h in locks then {locks[h]} else {}
    }

    ghost predicate Known(l: HostLock)
      reads this`lockObjs
    {
      l.id < |lockObjs| && lockObjs[l.id] == l
    }

    ghost predicate Valid()
      reads this, cacheLRU, cacheLRU.root, cacheLRU.nodes, lockObjs
    {
      CacheValid() && LocksValid()
    }

    /** The lock table and lock objects as the transition system sees them. */
    ghost function Table(): map<Host, P.LockId>
      reads this`locks, locks.Values
    {
      map h | h in locks :: locks[h].id
    }

    ghost function Heap(): (heap: seq<P.HostLock>)
      reads this, lockObjs
      ensures |heap| == |lockObjs|
      ensures forall i :: 0 <= i < |heap| ==> heap[i] == P.HostLock(lockObjs[i].refs, lockObjs[i].holder)
    {
      seq(|lockObjs|, i requires 0 <= i < |lockObjs| reads this, lockObjs
          => P.HostLock(lockObjs[i].refs, lockObjs[i].holder))
    }

    constructor (cacheMax: nat)
      ensures Valid() && this.cacheMax == cacheMax && entries == [] && locks == map[] && lockObjs == []
    {
      this.cacheMax := cacheMax;
      cacheLRU := new List();
      cache, locks, entries, lockObjs := map[], map[], [], [];
    }

    lemma HostsDistinct()
      requires Indexed()
      ensures Distinct(Hosts(entries))
    {
      forall i, j | 0 <= i < j < |entries| ensures Hosts(entries)[i] != Hosts(entries)[j] {
        assert cacheLRU.nodes[i] != cacheLRU.nodes[j];
      }
    }

    /** The map answers exactly as a search of the list would. */
    lemma FindNode(h: Host) returns (k: nat)
      requires CacheValid()
      ensures h in cache <==> Lookup(entries, h).Some?
      ensures h in cache ==>
        k < |entries| && cacheLRU.nodes[k] == cache[h] && entries[k] == Entry(h, Lookup(entries, h).value)
    {
      k := 0;
      if h in cache {
        k :| 0 <= k < |entries| && Hosts(entries)[k] == h;
        HostsDistinct();
        LookupAt(entries, k);
      }
    }

    /** Move the node at position k to the front of the recency list. */
    method Touch(elem: Element<Entry>, ghost k: nat)
      requires Indexed() && k < |entries| && cacheLRU.nodes[k] == elem
      modifies this`entries, cacheLRU, cacheLRU.root, cacheLRU.nodes
      ensures Indexed()
      ensures entries == ToFront(old(entries), k)
      ensures elem.value == old(elem.value)
    {
      ToFrontKeepsIndex(cache, entries, cacheLRU.nodes, k);
      cacheLRU.MoveToFront(elem, k);
      entries := ToFront(entries, k);
      assert IsIndex(cache, entries, cacheLRU.nodes);
      forall i | 0 <= i < |entries| ensures cacheLRU.nodes[i].value == Some(entries[i]) {
        ToFrontAt(old(entries), k, i);
        ToFrontAt(old(cacheLRU.nodes), k, i);
      }
    }

    /** getCached. */
    method GetCached(h: Host) returns (r: Option<Cert>)
      requires CacheValid()
      modifies this`entries, cacheLRU, cacheLRU.root, cacheLRU.nodes
      ensures CacheValid()
      ensures r == Lookup(old(entries), h)
      ensures entries == AfterGet(old(entries), h)
    {
      ghost var k := FindNode(h);
      if h !in cache {
        return None;
      }
      var elem := cache[h];
      HostsDistinct();
      WithoutAt(entries, h, k);
      Touch(elem, k);
      r := Some(elem.value.value.cert);
    }

    /** ent.cert = cert, in the node at k. */
    method Recert(elem: Element<Entry>, cert: Cert, ghost k: nat)
      requires Indexed() && k < |entries| && cacheLRU.nodes[k] == elem
      modifies this`entries, cacheLRU.nodes
      ensures Indexed()
      ensures entries == old(entries)[k := old(entries[k]).(cert := cert)]
    {
      RecertKeepsIndex(cache, entries, cacheLRU.nodes, k, cert);
      cacheLRU.SetValue(elem, elem.value.value.(cert := cert));
      entries := entries[k := entries[k].(cert := cert)];
    }

    /** The overwrite half of putCached: a new certificate in the node at k, which moves to the front. */
    method Overwrite(elem: Element<Entry>, cert: Cert, ghost k: nat)
      requires Indexed() && k < |entries| && cacheLRU.nodes[k] == elem
      modifies this`entries, cacheLRU, cacheLRU.root, cacheLRU.nodes
      ensures Indexed()
      ensures |entries| == |old(entries)|
      ensures entries == [Entry(old(entries[k].host), cert)] + Without(old(entries), old(entries[k].host))
    {
      HostsDistinct();
      WithoutAt(entries, entries[k].host, k);
      Recert(elem, cert, k);
      Touch(elem, k);
    }

    /** The insertion half of putCached: a new front node for a host that has none. */
    method Insert(h: Host, cert: Cert)
      requires Indexed() && h !in cache
      modifies this`entries, this`cache, cacheLRU, cacheLRU.root, cacheLRU.nodes
      ensures Indexed()
      ensures entries == [Entry(h, cert)] + old(entries)
      ensures fresh(cacheLRU.nodes[0]) && cacheLRU.nodes[1..] == old(cacheLRU.nodes)
    {
      ghost var hosts := Hosts(entries);
      var elem := cacheLRU.PushFront(Entry(h, cert));
      cache := cache[h := elem];
      entries := [Entry(h, cert)] + entries;
      assert Hosts(entries) == [h] + hosts;
      forall i | 0 <= i < |entries|
        ensures cacheLRU.nodes[i].value == Some(entries[i])
        ensures entries[i].host in cache && cache[entries[i].host] == cacheLRU.nodes[i]
      {
        if i > 0 {
          assert entries[i] == old(entries[i - 1]) && cacheLRU.nodes[i] == old(cacheLRU.nodes[i - 1]);
        }
      }
    }

    /** The eviction half of putCached: drop the back of the list from list and map. */
    method EvictBack()
      requires Indexed() && entries != []
      modifies this`entries, this`cache, cacheLRU, cacheLRU.root, cacheLRU.nodes
      ensures Indexed()
      ensures entries == old(entries[..|entries| - 1])
    {
      ghost var last := |entries| - 1;
      HostsDistinct();
      DropLastKeepsIndex(cache, entries, cacheLRU.nodes);
      var back := cacheLRU.Back();
      if back != null {
        var ent := back.value.value;
        cache := cache - {ent.host};
        cacheLRU.Remove(back, last);
        entries := entries[..last];
        assert cacheLRU.nodes == old(cacheLRU.nodes[..last]);
      }
    }

    /** The rest of putCached when the host is absent: insert, then evict if over capacity. */
    method InsertBounded(h: Host, cert: Cert)
      requires CacheValid() && h !in cache
      modifies this`entries, this`cache, cacheLRU, cacheLRU.root, cacheLRU.nodes
      ensures CacheValid()
      ensures var grown := [Entry(h, cert)] + old(entries);
        entries == if |grown| <= cacheMax then grown else grown[..|grown| - 1]
    {
      Insert(h, cert);
      if cacheLRU.len <= cacheMax {
        return;
      }
      EvictBack();
    }

    /** putCached. */
    method PutCached(h: Host, cert: Cert)
      requires CacheValid()
      modifies this`entries, this`cache, cacheLRU, cacheLRU.root, cacheLRU.nodes
      ensures CacheValid()
      ensures entries == AfterPut(old(entries), h, cert, cacheMax)
    {
      ghost var k := FindNode(h);
      if h in cache {
        Overwrite(cache[h], cert, k);
      } else {
        InsertBounded(h, cert);
      }
    }

    // ---- host locks ------------------------------------------------------------

    /** lockHost up to ca.mu.Unlock(): the lock of h, created on demand, with one more reference. */
    method Register(h: Host) returns (l: HostLock)
      requires LocksValid()
      modifies this`locks, this`lockObjs, LockOf(h)
      ensures LocksValid() && Known(l) && locks == old(locks)[h := l]
      ensures if h in old(locks) then l == old(locks[h]) else fresh(l)
      ensures l.holder == if h in old(locks) then old(locks[h].holder) else None
      ensures l.refs == (if h in old(locks) then old(locks[h].refs) else 0) + 1
      ensures h in old(Table()) ==> old(Table())[h] < |old(Heap())|
      ensures (Table(), Heap(), l.id) == P.RegisterLock(old(Table()), old(Heap()), h)
    {
      if h !in locks {
        NewLock(h);
      }
      l := locks[h];
      AddRef(l);
      ghost var (table, heap, id) := P.RegisterLock(old(Table()), old(Heap()), h);
      assert Table() == table && Heap() == heap && l.id == id;
    }

    /** ca.locks[host] = &hostLock{}. */
    method NewLock(h: Host)
      requires LocksValid() && h !in locks
      modifies this`locks, this`lockObjs
      ensures LocksValid() && h in locks && fresh(locks[h]) && locks == old(locks)[h := locks[h]]
      ensures locks[h].refs == 0 && locks[h].holder == None
      ensures locks[h].id == |old(Heap())|
      ensures Table() == old(Table())[h := |old(Heap())|]
      ensures Heap() == old(Heap()) + [P.HostLock(0, None)]
    {
      var hlock := new HostLock(|lockObjs|);
      locks := locks[h := hlock];
      lockObjs := lockObjs + [hlock];
    }

    /** hlock.refs++. */
    method AddRef(l: HostLock)
      requires LocksValid() && Known(l)
      modifies l`refs
      ensures LocksValid() && Table() == old(Table())
      ensures l.refs == old(l.refs) + 1
      ensures l.id < |old(Heap())| && Heap() == old(Heap())[l.id := P.HostLock(l.refs, l.holder)]
    {
      l.refs := l.refs + 1;
    }

    /** The closure lockHost returns, from ca.mu.Lock() on: one reference less, the last deletes the entry. */
    method Deregister(h: Host, l: HostLock)
      requires LocksValid() && Known(l)
      modifies this`locks, l`refs
      ensures LocksValid()
      ensures l.id < |old(Heap())|
      ensures (Table(), Heap()) == P.DeregisterLock(old(Table()), old(Heap()), h, l.id)
      ensures l.refs == old(l.refs) - 1
      ensures locks == if l.refs == 0 then old(locks) - {h} else old(locks)
    {
      l.refs := l.refs - 1;
      if l.refs == 0 {
        locks := locks - {h};
      }
      ghost var (table, heap) := P.DeregisterLock(old(Table()), old(Heap()), h, l.id);
      assert Table() == table && Heap() == heap;
    }

    /** The body of LeafCert under the host lock; issued is what ca.issue returns if it is called. */
    method GetOrIssue(h: Host, issued: Option<Cert>) returns (r: Option<Cert>)
      requires CacheValid()
      modifies this`entries, this`cache, cacheLRU, cacheLRU.root, cacheLRU.nodes
      ensures CacheValid()
      ensures old(LocksValid()) ==> LocksValid()
      ensures r == if Lookup(old(entries), h).Some? then Lookup(old(entries), h) else issued
      ensures entries ==
        if Lookup(old(entries), h).Some? then AfterGet(old(entries), h)
        else if issued.Some? then AfterPut(old(entries), h, issued.value, cacheMax)
        else old(entries)
    {
      r := GetCached(h);
      if r.None? {
        r := issued;
        if issued.Some? {
          PutCached(h, issued.value);
        }
      }
    }

    /** lockHost, when hlock.mu is free. */
    method LockHost(h: Host, t: P.Thread) returns (l: HostLock)
      requires LocksValid() && (h in locks ==> locks[h].holder == None)
      modifies this`locks, this`lockObjs, LockOf(h)
      ensures LocksValid() && Known(l) && locks == old(locks)[h := l]
      ensures h in old(locks) ==> l == old(locks[h]) && l.refs == old(locks[h].refs) + 1
      ensures h !in old(locks) ==> fresh(l) && l.refs == 1
      ensures l.holder == Some(t)
      ensures old(CacheValid()) ==> CacheValid()
    {
      l := Register(h);
      l.holder := Some(t);
    }

    /** The closure lockHost returns. */
    method UnlockHost(h: Host, l: HostLock)
      requires LocksValid() && Known(l)
      modifies this`locks, l
      ensures LocksValid()
      ensures l.holder == None && l.refs == old(l.refs) - 1
      ensures old(CacheValid()) ==> CacheValid()
      ensures locks == if l.refs == 0 then old(locks) - {h} else old(locks)
    {
      l.holder := None;
      Deregister(h, l);
    }

    /** The rest of LeafCert once the host lock is held, with the deferred release. */
    method GetOrIssueAndUnlock(h: Host, l: HostLock, issued: Option<Cert>) returns (r: Option<Cert>)
      requires Valid() && Known(l)
      modifies this`entries, this`cache, this`locks, l, cacheLRU, cacheLRU.root, cacheLRU.nodes
      ensures Valid()
      ensures l.holder == None && l.refs == old(l.refs) - 1
      ensures locks == if l.refs == 0 then old(locks) - {h} else old(locks)
      ensures r == if Lookup(old(entries), h).Some? then Lookup(old(entries), h) else issued
      ensures entries ==
        if Lookup(old(entries), h).Some? then AfterGet(old(entries), h)
        else if issued.Some? then AfterPut(old(entries), h, issued.value, cacheMax)
        else old(entries)
    {
      r := GetOrIssue(h, issued);
      UnlockHost(h, l);
    }

    /** LeafCert for a call no other call gets in between; the lock table ends as it began. */
    method LeafCert(h: Host, t: P.Thread, issued: Option<Cert>) returns (r: Option<Cert>)
      requires Valid() && (h in locks ==> locks[h].holder == None && locks[h].refs >= 1)
      modifies this`entries, this`cache, this`locks, this`lockObjs
      modifies cacheLRU, cacheLRU.root, cacheLRU.nodes, LockOf(h)
      ensures Valid() && locks == old(locks)
      ensures h in locks ==> locks[h].refs == old(locks[h].refs) && locks[h].holder == None
      ensures r == if Lookup(old(entries), h).Some? then Lookup(old(entries), h) else issued
      ensures entries ==
        if Lookup(old(entries), h).Some? then AfterGet(old(entries), h)
        else if issued.Some? then AfterPut(old(entries), h, issued.value, cacheMax)
        else old(entries)
    {
      var l := LockHost(h, t);
      AddThenRemove(old(locks), h, l);
      r := GetOrIssueAndUnlock(h, l, issued);
    }
  }

  lemma AddThenRemove<K, V>(m: map<K, V>, k: K, v: V)
    ensures k !in m ==> m[k := v] - {k} == m
    ensures k in m && m[k] == v ==> m[k := v] == m
  {
  }

  lemma {:induction false} LookupAt(es: seq<Entry>, k: nat)
    requires k < |es| && Distinct(Hosts(es))
    ensures Lookup(es, es[k].host) == Some(es[k].cert)
  {
    if k > 0 {
      HostsCons(es[0], es[1..]);
      assert es == [es[0]] + es[1..];
      assert Hosts(es)[0] != Hosts(es)[k];
      LookupAt(es[1..], k - 1);
    }
  }

  /** Removing the host at position k from distinct hosts removes just that position. */
  lemma {:induction false} WithoutAt(es: seq<Entry>, h: Host, k: nat)
    requires k < |es| && es[k].host == h && Distinct(Hosts(es))
    ensures Without(es, h) == es[..k] + es[k + 1..]
  {
    HostsWithout(es, h);
    if k > 0 {
      assert Hosts(es)[0] == es[0].host && Hosts(es)[k] == h;
      assert Hosts(es[1..]) == Hosts(es)[1..];
      WithoutAt(es[1..], h, k - 1);
    } else {
      assert Hosts(es[1..]) == Hosts(es)[1..];
      assert h !in Hosts(es[1..]);
      WithoutNone(es[1..], h);
    }
  }

  lemma {:induction false} WithoutNone(es: seq<Entry>, h: Host)
    requires h !in Hosts(es)
    ensures Without(es, h) == es
  {
    if es != [] {
      assert Hosts(es)[0] == es[0].host;
      assert Hosts(es[1..]) == Hosts(es)[1..];
      WithoutNone(es[1..], h);
    }
  }
}
