/**
 The leaf-certificate cache as a value: a list of entries, most recently used
 first (internal/ca/ca.go, getCached and putCached), and the theory of true LRU
 it is measured against.
 */
module Lru {
  import opened Prelude

  type Host = string

  /** A leaf certificate; nothing about its contents matters here. */
  type Cert(==, !new)

  datatype Entry = Entry(host: Host, cert: Cert)

  function Hosts(es: seq<Entry>): (hs: seq<Host>)
    ensures |hs| == |es|
    ensures forall i :: 0 <= i < |es| ==> hs[i] == es[i].host
  {
    seq(|es|, i requires 0 <= i < |es| => es[i].host)
  }

  function Lookup(es: seq<Entry>, h: Host): (r: Option<Cert>)
    ensures r.Some? <==> h in Hosts(es)
    ensures r.Some? ==> Entry(h, r.value) in es
  {
    if es == [] then None
    else if es[0].host == h then
      assert Hosts(es)[0] == h;
      Some(es[0].cert)
    else
      assert Hosts(es) == [es[0].host] + Hosts(es[1..]);
      Lookup(es[1..], h)
  }

  /** Remove every entry of h. */
  function Without(es: seq<Entry>, h: Host): seq<Entry> {
    if es == [] then []
    else if es[0].host == h then Without(es[1..], h)
    else [es[0]] + Without(es[1..], h)
  }

  function WithoutHost(hs: seq<Host>, h: Host): seq<Host> {
    if hs == [] then []
    else if hs[0] == h then WithoutHost(hs[1..], h)
    else [hs[0]] + WithoutHost(hs[1..], h)
  }

  /** The cache after getCached(h): a hit moves the entry to the front. */
  function AfterGet(es: seq<Entry>, h: Host): seq<Entry> {
    match Lookup(es, h)
    case None => es
    case Some(c) => [Entry(h, c)] + Without(es, h)
  }

  /** Drop the back entry when the list is over capacity. */
  function Trim(es: seq<Entry>, max: nat): seq<Entry> {
    if |es| <= max then es else es[..|es| - 1]
  }

  /** The cache after putCached(h, c): overwrite in place, or insert and evict the back. */
  function AfterPut(es: seq<Entry>, h: Host, c: Cert, max: nat): seq<Entry> {
    if Lookup(es, h).Some? then [Entry(h, c)] + Without(es, h) else Trim([Entry(h, c)] + es, max)
  }

  /** The entry putCached(h, c) evicts, if any. */
  function Victim(es: seq<Entry>, h: Host, c: Cert, max: nat): Option<Entry> {
    if Lookup(es, h).Some? || |es| + 1 <= max then None
    else Some(([Entry(h, c)] + es)[|es|])
  }

  /** The distinct hosts of a touch history, most recently touched first. */
  function Recency(history: seq<Host>): seq<Host> {
    if history == [] then []
    else
      var h := history[|history| - 1];
      [h] + WithoutHost(Recency(history[..|history| - 1]), h)
  }

  /** What the cache must be: distinct hosts, exactly the max most recently touched ones. */
  ghost predicate IsLru(es: seq<Entry>, max: nat, history: seq<Host>) {
    && Distinct(Hosts(es))
    && Hosts(es) == Take(max, Recency(history))
  }

  // ---- removal -----------------------------------------------------------

  lemma {:induction false} WithoutMembers(hs: seq<Host>, h: Host)
    ensures forall x :: x in WithoutHost(hs, h) <==> x in hs && x != h
  {
    if hs != [] {
      WithoutMembers(hs[1..], h);
      assert hs == [hs[0]] + hs[1..];
    }
  }

  lemma {:induction false} WithoutAbsent(hs: seq<Host>, h: Host)
    requires h !in hs
    ensures WithoutHost(hs, h) == hs
  {
    if hs != [] {
      WithoutAbsent(hs[1..], h);
    }
  }

  lemma {:induction false} WithoutDistinct(hs: seq<Host>, h: Host)
    requires Distinct(hs)
    ensures Distinct(WithoutHost(hs, h))
    ensures |WithoutHost(hs, h)| == if h in hs then |hs| - 1 else |hs|
  {
    if hs != [] {
      WithoutDistinct(hs[1..], h);
      WithoutMembers(hs[1..], h);
      assert hs[0] !in hs[1..];
      if hs[0] == h {
        WithoutAbsent(hs[1..], h);
      }
    }
  }

  lemma {:induction false} HostsWithout(es: seq<Entry>, h: Host)
    ensures Hosts(Without(es, h)) == WithoutHost(Hosts(es), h)
  {
    if es != [] {
      HostsWithout(es[1..], h);
      assert Hosts(es)[1..] == Hosts(es[1..]);
    }
  }

  /** Removing h leaves the certificate of every other host as it was. */
  lemma {:induction false} LookupWithout(es: seq<Entry>, h: Host, x: Host)
    ensures Lookup(Without(es, h), x) == if x == h then None else Lookup(es, x)
  {
    if es != [] {
      LookupWithout(es[1..], h, x);
    }
  }

  lemma {:induction false} RecencyDistinct(history: seq<Host>)
    ensures Distinct(Recency(history))
    ensures forall x :: x in Recency(history) <==> x in history
  {
    if history != [] {
      var init, h := history[..|history| - 1], history[|history| - 1];
      RecencyDistinct(init);
      WithoutDistinct(Recency(init), h);
      WithoutMembers(Recency(init), h);
      assert history == init + [h];
    }
  }

  /** h occurs at most once in hs. */
  predicate AtMostOnce(hs: seq<Host>, h: Host) {
    hs == [] || (if hs[0] == h then h !in hs[1..] else AtMostOnce(hs[1..], h))
  }

  lemma {:induction false} DistinctMeansOnce(hs: seq<Host>, h: Host)
    requires Distinct(hs)
    ensures AtMostOnce(hs, h)
  {
    if hs != [] {
      DistinctMeansOnce(hs[1..], h);
    }
  }

  lemma TakeCons(k: nat, x: Host, hs: seq<Host>)
    ensures Take(k + 1, [x] + hs) == [x] + Take(k, hs)
  {
  }

  /** Truncating before or after moving h to the front makes no difference. */
  lemma {:induction false} TakeWithout(k: nat, hs: seq<Host>, h: Host)
    requires AtMostOnce(hs, h)
    ensures Take(k, WithoutHost(Take(k + 1, hs), h)) == Take(k, WithoutHost(hs, h))
  {
    if hs != [] && k > 0 {
      var x, tail := hs[0], hs[1..];
      assert hs == [x] + tail;
      TakeCons(k, x, tail);
      assert ([x] + Take(k, tail))[1..] == Take(k, tail);
      if x == h {
        WithoutAbsent(tail, h);
        WithoutAbsent(Take(k, tail), h);
      } else {
        TakeWithout(k - 1, tail, h);
        TakeCons(k - 1, x, WithoutHost(Take(k, tail), h));
        TakeCons(k - 1, x, WithoutHost(tail, h));
      }
    }
  }

  // ---- the cache refines true LRU ---------------------------------------

  /** The one fact behind refinement: what a touch of h does to the host list. */
  lemma TouchKeepsLru(hs: seq<Host>, max: nat, history: seq<Host>, h: Host, hs': seq<Host>)
    requires hs == Take(max, Recency(history))
    requires hs' == Take(max, [h] + WithoutHost(hs, h))
    ensures hs' == Take(max, Recency(history + [h]))
    ensures Distinct(hs')
  {
    var r := Recency(history);
    assert (history + [h])[..|history|] == history;
    RecencyDistinct(history);
    RecencyDistinct(history + [h]);
    if max > 0 {
      DistinctMeansOnce(r, h);
      TakeWithout(max - 1, r, h);
      TakeCons(max - 1, h, WithoutHost(hs, h));
      TakeCons(max - 1, h, WithoutHost(r, h));
    }
  }

  lemma GetKeepsLru(es: seq<Entry>, max: nat, history: seq<Host>, h: Host)
    requires IsLru(es, max, history)
    ensures IsLru(AfterGet(es, h), max, if Lookup(es, h).Some? then history + [h] else history)
  {
    if Lookup(es, h).Some? {
      HostsAfterGet(es, h);
      TouchKeepsLru(Hosts(es), max, history, h, Hosts(AfterGet(es, h)));
    }
  }

  lemma HostsAfterGet(es: seq<Entry>, h: Host)
    requires Distinct(Hosts(es)) && Lookup(es, h).Some?
    ensures Hosts(AfterGet(es, h)) == [h] + WithoutHost(Hosts(es), h)
    ensures |Hosts(AfterGet(es, h))| == |es|
  {
    HostsWithout(es, h);
    WithoutDistinct(Hosts(es), h);
    HostsCons(Entry(h, Lookup(es, h).value), Without(es, h));
  }

  /** getCached changes no certificate. */
  lemma GetLookup(es: seq<Entry>, h: Host, x: Host)
    ensures Lookup(AfterGet(es, h), x) == Lookup(es, x)
  {
    if Lookup(es, h).Some? {
      LookupWithout(es, h, x);
      assert AfterGet(es, h)[1..] == Without(es, h);
    }
  }

  lemma PutKeepsLru(es: seq<Entry>, max: nat, history: seq<Host>, h: Host, c: Cert)
    requires IsLru(es, max, history)
    ensures IsLru(AfterPut(es, h, c, max), max, history + [h])
  {
    HostsAfterPut(es, h, c, max);
    TouchKeepsLru(Hosts(es), max, history, h, Hosts(AfterPut(es, h, c, max)));
  }

  lemma HostsAfterPut(es: seq<Entry>, h: Host, c: Cert, max: nat)
    requires Distinct(Hosts(es)) && |es| <= max
    ensures Hosts(AfterPut(es, h, c, max)) == Take(max, [h] + WithoutHost(Hosts(es), h))
  {
    if Lookup(es, h).Some? {
      HostsWithout(es, h);
      WithoutDistinct(Hosts(es), h);
      HostsCons(Entry(h, c), Without(es, h));
    } else {
      WithoutAbsent(Hosts(es), h);
      HostsCons(Entry(h, c), es);
      HostsTrim([Entry(h, c)] + es, max);
    }
  }

  lemma HostsCons(e: Entry, es: seq<Entry>)
    ensures Hosts([e] + es) == [e.host] + Hosts(es)
  {
  }

  lemma HostsTrim(es: seq<Entry>, max: nat)
    requires |es| <= max + 1
    ensures Hosts(Trim(es, max)) == Take(max, Hosts(es))
  {
  }

  /**
   What putCached changes, host by host: h now has c (unless h itself is the
   victim, which happens only when the capacity is zero), the victim is gone,
   every other host keeps its certificate.
   */
  lemma PutLookup(es: seq<Entry>, h: Host, c: Cert, max: nat, x: Host)
    requires Distinct(Hosts(es))
    ensures Lookup(AfterPut(es, h, c, max), x) ==
      (match Victim(es, h, c, max)
       case Some(v) => if x == v.host then None else if x == h then Some(c) else Lookup(es, x)
       case None => if x == h then Some(c) else Lookup(es, x))
    ensures Victim(es, h, c, max).Some? ==>
      var v := Victim(es, h, c, max).value;
      if v.host == h then v.cert == c && es == [] else Lookup(es, v.host) == Some(v.cert)
  {
    if Lookup(es, h).Some? {
      LookupWithout(es, h, x);
      LookupCons(Entry(h, c), Without(es, h), x);
    } else if |es| + 1 > max {
      var grown := [Entry(h, c)] + es;
      HostsCons(Entry(h, c), es);
      LookupDropLast(grown, x);
      LookupDropLast(grown, grown[|es|].host);
      LookupCons(Entry(h, c), es, x);
      LookupCons(Entry(h, c), es, grown[|es|].host);
    } else {
      LookupCons(Entry(h, c), es, x);
    }
  }

  lemma LookupCons(e: Entry, es: seq<Entry>, x: Host)
    ensures Lookup([e] + es, x) == if x == e.host then Some(e.cert) else Lookup(es, x)
  {
    assert ([e] + es)[1..] == es;
  }

  lemma LookupDropLast(es: seq<Entry>, x: Host)
    requires es != [] && Distinct(Hosts(es))
    ensures var last := es[|es| - 1];
      && Lookup(es, last.host) == Some(last.cert)
      && Lookup(es[..|es| - 1], x) == if x == last.host then None else Lookup(es, x)
  {
    var init, last := es[..|es| - 1], es[|es| - 1];
    LastIsNew(es);
    assert es == init + [last];
    LookupAppend(init, last, x);
    LookupAppend(init, last, last.host);
  }

  lemma LastIsNew(es: seq<Entry>)
    requires es != [] && Distinct(Hosts(es))
    ensures es[|es| - 1].host !in Hosts(es[..|es| - 1])
  {
    var n := |es| - 1;
    forall i | 0 <= i < n ensures Hosts(es[..n])[i] != es[n].host {
      assert Hosts(es)[i] != Hosts(es)[n];
    }
  }

  lemma {:induction false} LookupAppend(es: seq<Entry>, e: Entry, x: Host)
    requires e.host !in Hosts(es)
    ensures Lookup(es + [e], x) == if x == e.host then Some(e.cert) else Lookup(es, x)
  {
    if es != [] {
      assert Hosts(es) == [es[0].host] + Hosts(es[1..]);
      assert (es + [e])[1..] == es[1..] + [e];
      LookupAppend(es[1..], e, x);
    }
  }

  /** One call to getCached or putCached. */
  datatype Op = Get(host: Host) | Put(host: Host, cert: Cert)

  datatype Cached = Cached(entries: seq<Entry>, history: seq<Host>)

  /** Run calls in the order they take ca.mu; history records hits and puts. */
  function Replay(max: nat, ops: seq<Op>): Cached {
    if ops == [] then Cached([], [])
    else
      var c, op := Replay(max, ops[..|ops| - 1]), ops[|ops| - 1];
      match op
      case Get(h) =>
        Cached(AfterGet(c.entries, h), if Lookup(c.entries, h).Some? then c.history + [h] else c.history)
      case Put(h, cert) =>
        Cached(AfterPut(c.entries, h, cert, max), c.history + [h])
  }

  /** Map-plus-list refines true LRU, for every sequence of calls and every capacity. */
  lemma {:induction false} ReplayIsLru(max: nat, ops: seq<Op>)
    ensures var c := Replay(max, ops); IsLru(c.entries, max, c.history) && |c.entries| <= max
  {
    if ops != [] {
      var c, op := Replay(max, ops[..|ops| - 1]), ops[|ops| - 1];
      ReplayIsLru(max, ops[..|ops| - 1]);
      match op
      case Get(h) => GetKeepsLru(c.entries, max, c.history, h);
      case Put(h, cert) => PutKeepsLru(c.entries, max, c.history, h, cert);
    }
  }

  // ---- stack property ----------------------------------------------------

  datatype Served = Served(entries: seq<Entry>, issues: nat)

  /** A sequence of LeafCert requests whose issues all succeed, with the certificate each would issue. */
  function Serve(max: nat, requests: seq<Entry>): Served {
    if requests == [] then Served([], 0)
    else
      var s, r := Serve(max, requests[..|requests| - 1]), requests[|requests| - 1];
      if Lookup(s.entries, r.host).Some? then Served(AfterGet(s.entries, r.host), s.issues)
      else Served(AfterPut(s.entries, r.host, r.cert, max), s.issues + 1)
  }

  lemma {:induction false} ServeIsLru(max: nat, requests: seq<Entry>)
    ensures IsLru(Serve(max, requests).entries, max, Hosts(requests))
  {
    if requests != [] {
      var init, r := requests[..|requests| - 1], requests[|requests| - 1];
      ServeIsLru(max, init);
      assert Hosts(requests) == Hosts(init) + [r.host];
      GetKeepsLru(Serve(max, init).entries, max, Hosts(init), r.host);
      if Lookup(Serve(max, init).entries, r.host).None? {
        PutKeepsLru(Serve(max, init).entries, max, Hosts(init), r.host, r.cert);
      }
    }
  }

  /** A larger cache holds what a smaller one holds, in the same order, and never issues more. */
  lemma {:induction false} StackProperty(small: nat, large: nat, requests: seq<Entry>)
    requires small <= large
    ensures Hosts(Serve(small, requests).entries) <= Hosts(Serve(large, requests).entries)
    ensures Serve(large, requests).issues <= Serve(small, requests).issues
  {
    ServeIsLru(small, requests);
    ServeIsLru(large, requests);
    if requests != [] {
      StackProperty(small, large, requests[..|requests| - 1]);
    }
  }
}
