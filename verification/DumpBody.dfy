/** dumpBody of internal/proxy/pipeline.go: a body reader that logs how the body starts and changes nothing else. */
module DumpBody {
  import opened Prelude
  import opened Bytes

  // ---- the body underneath ------------------------------------------------------------------

  datatype Status = More | Eof | Fault

  /** What one Read of the body has ready: some bytes, and what it reports with the last of them. */
  datatype Chunk = Chunk(data: seq<byte>, status: Status)

  /** The body as the reads it still answers; after them it is at its end. */
  type Script = seq<Chunk>

  /** One Read into a buffer of the given size: a chunk that does not fit is given in parts. */
  function Given(script: Script, size: nat): (c: Chunk)
    ensures |c.data| <= size
  {
    if script == [] then Chunk([], Eof)
    else if |script[0].data| <= size then script[0]
    else Chunk(script[0].data[..size], More)
  }

  function Left(script: Script, size: nat): Script {
    if script == [] then []
    else if |script[0].data| <= size then script[1..]
    else [script[0].(data := script[0].data[size..])] + script[1..]
  }

  /** All the bytes a script holds. */
  function Content(script: Script): seq<byte> {
    if script == [] then [] else script[0].data + Content(script[1..])
  }

  class Source {
    var script: Script
    var closed: nat

    constructor (script: Script)
      ensures this.script == script && closed == 0
    {
      this.script, closed := script, 0;
    }

    method Read(p: array<byte>) returns (n: nat, status: Status)
      modifies this, p
      ensures n <= p.Length && Chunk(p[..n], status) == Given(old(script), p.Length)
      ensures forall k :: n <= k < p.Length ==> p[k] == old(p[k])
      ensures script == Left(old(script), p.Length) && closed == old(closed)
    {
      var c := Given(script, p.Length);
      script := Left(script, p.Length);
      n, status := |c.data|, c.status;
      forall i | 0 <= i < n {
        p[i] := c.data[i];
      }
      assert p[..n] == c.data;
    }

    method Close()
      modifies this
      ensures script == old(script) && closed == old(closed) + 1
    {
      closed := closed + 1;
    }
  }

  // ---- the machine that watches it --------------------------------------------------------------

  /** The snippet, the room left in it, whether it was logged, and the log. */
  datatype State = State(snippet: seq<byte>, remaining: nat, logged: bool, log: seq<seq<byte>>)

  function Start(max: nat, log: seq<seq<byte>>): State {
    State([], max, false, log)
  }

  /** snippetLimitWriter.Write. */
  function Written(st: State, p: seq<byte>): State {
    st.(snippet := st.snippet + Take(st.remaining, p), remaining := st.remaining - Min(|p|, st.remaining))
  }

  /** logSnippet. */
  function Logged(st: State): State {
    if st.logged then st
    else if st.snippet == [] then st.(logged := true)
    else st.(logged := true, log := st.log + [st.snippet])
  }

  datatype Event = DidRead(chunk: Chunk) | DidClose

  function Step(st: State, e: Event): State {
    match e
    case DidRead(chunk) => if chunk.status.Eof? then Logged(Written(st, chunk.data)) else Written(st, chunk.data)
    case DidClose => Logged(st)
  }

  function Steps(st: State, events: seq<Event>): State {
    if events == [] then st else Step(Steps(st, events[..|events| - 1]), events[|events| - 1])
  }

  lemma NothingWritten(st: State, p: seq<byte>)
    ensures st.remaining == 0 || p == [] ==> Written(st, p) == st
  {
    assert st.snippet + [] == st.snippet;
  }

  class SnippetLimitWriter {
    var buf: seq<byte>
    var remaining: int

    constructor (max: int)
      ensures buf == [] && remaining == max
    {
      buf, remaining := [], max;
    }

    method Write(p: seq<byte>) returns (n: nat)
      modifies this
      ensures n == |p|
      ensures old(remaining) <= 0 ==> buf == old(buf) && remaining == old(remaining)
      ensures old(remaining) > 0 ==>
        buf == old(buf) + Take(old(remaining), p) && remaining == old(remaining) - Min(|p|, old(remaining))
    {
      if remaining <= 0 {
        return |p|;
      }
      var k := |p|;
      if k > remaining {
        k := remaining;
      }
      if k > 0 {
        buf := buf + p[..k];
        remaining := remaining - k;
      }
      return |p|;
    }
  }

  class Logger {
    var entries: seq<seq<byte>>

    constructor ()
      ensures entries == []
    {
      entries := [];
    }
  }

  class DumpBodyReadCloser {
    const body: Source
    const writer: SnippetLimitWriter
    const logger: Logger
    var logged: bool

    constructor (body: Source, max: nat, logger: Logger)
      ensures this.body == body && this.logger == logger && fresh(writer)
      ensures Valid() && View() == Start(max, logger.entries)
    {
      this.body, this.logger, logged := body, logger, false;
      writer := new SnippetLimitWriter(max);
    }

    ghost predicate Valid()
      reads writer
    {
      writer.remaining >= 0
    }

    ghost function View(): State
      requires Valid()
      reads this, writer, logger
    {
      State(writer.buf, writer.remaining, logged, logger.entries)
    }

    method LogSnippet()
      requires Valid()
      modifies this, logger
      ensures Valid() && View() == Logged(old(View()))
    {
      if logged {
        return;
      }
      logged := true;
      if |writer.buf| == 0 {
        return;
      }
      logger.entries := logger.entries + [writer.buf];
    }

    /** The caller gets exactly what the body gives, in the buffer, the count and the status. */
    method Read(p: array<byte>) returns (n: nat, status: Status)
      requires Valid()
      modifies this, body, writer, logger, p
      ensures n <= p.Length && Chunk(p[..n], status) == Given(old(body.script), p.Length)
      ensures forall k :: n <= k < p.Length ==> p[k] == old(p[k])
      ensures body.script == Left(old(body.script), p.Length) && body.closed == old(body.closed)
      ensures Valid() && View() == Step(old(View()), DidRead(Chunk(p[..n], status)))
    {
      n, status := body.Read(p);
      ghost var st := View();
      if n > 0 {
        var _ := writer.Write(p[..n]);
      }
      assert View() == Written(st, p[..n]) by {
        NothingWritten(st, p[..n]);
      }
      if status == Eof {
        LogSnippet();
      }
    }

    method Close()
      requires Valid()
      modifies this, body, logger
      ensures body.script == old(body.script) && body.closed == old(body.closed) + 1
      ensures Valid() && View() == Step(old(View()), DidClose)
    {
      LogSnippet();
      body.Close();
    }
  }

  /** No body stays no body, and without a positive limit the body is handed on as it is. */
  datatype Dumped = Absent | Plain(body: Source) | Watched(dumper: DumpBodyReadCloser)

  method Dump(logger: Logger, body: Source?, max: int) returns (d: Dumped)
    ensures d.Absent? <==> body == null
    ensures d.Plain? <==> body != null && max <= 0
    ensures d.Plain? ==> d.body == body
    ensures d.Watched? ==> fresh(d.dumper) && d.dumper.body == body && d.dumper.logger == logger
    ensures d.Watched? ==> d.dumper.Valid() && d.dumper.View() == Start(max, logger.entries)
  {
    if body == null {
      return Absent;
    }
    if max <= 0 {
      return Plain(body);
    }
    var dumper := new DumpBodyReadCloser(body, max, logger);
    d := Watched(dumper);
  }

  // ---- what every sequence of reads and closes keeps ---------------------------------------------

  /** The bytes delivered by the reads, in order. */
  function Delivered(events: seq<Event>): seq<byte> {
    if events == [] then []
    else
      var last := events[|events| - 1];
      Delivered(events[..|events| - 1]) + if last.DidRead? then last.chunk.data else []
  }

  /** The events at which the snippet is logged, the first time one of them comes. */
  predicate Triggers(e: Event) {
    e.DidClose? || e.chunk.status.Eof?
  }

  /** How many events have passed up to and including the first trigger. */
  function FirstTrigger(events: seq<Event>): (n: Option<nat>)
    ensures n.Some? ==> 0 < n.value <= |events|
  {
    if events == [] then None
    else
      var init := events[..|events| - 1];
      if FirstTrigger(init).Some? then FirstTrigger(init)
      else if Triggers(events[|events| - 1]) then Some(|events|)
      else None
  }

  lemma {:induction false} FirstTriggerIsFirst(events: seq<Event>)
    ensures FirstTrigger(events).Some? ==> Triggers(events[FirstTrigger(events).value - 1])
    ensures forall i :: 0 <= i < (if FirstTrigger(events).Some? then FirstTrigger(events).value - 1 else |events|) ==>
      !Triggers(events[i])
  {
    if events != [] {
      FirstTriggerIsFirst(events[..|events| - 1]);
    }
  }

  lemma TakeMore(max: nat, seen: seq<byte>, more: seq<byte>, snippet: seq<byte>, remaining: nat)
    requires snippet == Take(max, seen) && remaining == max - |snippet|
    ensures snippet + Take(remaining, more) == Take(max, seen + more)
    ensures remaining - Min(|more|, remaining) == max - |Take(max, seen + more)|
  {
  }

  /** The snippet is always the first max bytes that were read, or all of them while there are fewer. */
  lemma {:induction false} SnippetIsPrefix(max: nat, log: seq<seq<byte>>, events: seq<Event>)
    ensures var st := Steps(Start(max, log), events);
      st.snippet == Take(max, Delivered(events)) && st.remaining == max - |st.snippet|
  {
    if events != [] {
      var init, last := events[..|events| - 1], events[|events| - 1];
      SnippetIsPrefix(max, log, init);
      if last.DidRead? {
        var st := Steps(Start(max, log), init);
        TakeMore(max, Delivered(init), last.chunk.data, st.snippet, st.remaining);
      }
    }
  }

  /**
   At most one snippet is logged over any run. It is logged at the first end of
   file or Close, it is what had been read by then up to the limit, and nothing
   is logged when that is empty.
  */
  lemma {:induction false} LoggedOnce(max: nat, log: seq<seq<byte>>, events: seq<Event>)
    ensures var st, first := Steps(Start(max, log), events), FirstTrigger(events);
      && st.logged == first.Some?
      && (first.None? ==> st.log == log)
      && (first.Some? ==> st.log == log + SnippetEntry(max, Delivered(events[..first.value])))
  {
    hide Take, Delivered;
    if events != [] {
      var init, last := events[..|events| - 1], events[|events| - 1];
      LoggedOnce(max, log, init);
      SnippetIsPrefix(max, log, events);
      if FirstTrigger(init).Some? {
        assert init[..FirstTrigger(init).value] == events[..FirstTrigger(init).value];
      } else if Triggers(last) {
        assert events[..|events|] == events;
        LogsSnippet(Steps(Start(max, log), init), last);
      }
    }
  }

  /** The log entry for a run that had read this much. */
  function SnippetEntry(max: nat, seen: seq<byte>): seq<seq<byte>> {
    if Take(max, seen) == [] then [] else [Take(max, seen)]
  }

  lemma LogsSnippet(st: State, e: Event)
    requires !st.logged && Triggers(e)
    ensures var next := Step(st, e);
      next.logged && next.log == st.log + if next.snippet == [] then [] else [next.snippet]
  {
  }

  // ---- transparency over whole runs -----------------------------------------------------------------

  /** A caller's moves: a Read into a buffer of some size, or a Close. */
  datatype Call = Read(size: nat) | Close

  /** The events of a run of calls on a body: each one what the body itself answers. */
  function Answers(script: Script, calls: seq<Call>): seq<Event>
    decreases |calls|
  {
    if calls == [] then []
    else
      match calls[0]
      case Read(size) => [DidRead(Given(script, size))] + Answers(Left(script, size), calls[1..])
      case Close => [DidClose] + Answers(script, calls[1..])
  }

  function Remaining(script: Script, calls: seq<Call>): Script
    decreases |calls|
  {
    if calls == [] then script
    else Remaining(if calls[0].Read? then Left(script, calls[0].size) else script, calls[1..])
  }

  lemma {:induction false} DeliveredFirst(e: Event, events: seq<Event>)
    ensures Delivered([e] + events) == (if e.DidRead? then e.chunk.data else []) + Delivered(events)
  {
    if events == [] {
      assert [e] + events == [e] && [e][..0] == [];
    } else {
      var init := events[..|events| - 1];
      assert ([e] + events)[..|events|] == [e] + init;
      DeliveredFirst(e, init);
    }
  }

  lemma ContentSplits(script: Script, size: nat)
    ensures Content(script) == Given(script, size).data + Content(Left(script, size))
  {
    if script != [] && |script[0].data| > size {
      var rest := script[0].(data := script[0].data[size..]);
      assert ([rest] + script[1..])[1..] == script[1..];
      assert script[0].data == script[0].data[..size] + rest.data;
      assert script[0].data[..size] + (rest.data + Content(script[1..])) == script[0].data + Content(script[1..]);
    }
  }

  /** For every chunking and every run of calls, the bytes delivered are the content of the body, in order. */
  lemma {:induction false} NothingIsLost(script: Script, calls: seq<Call>)
    ensures Delivered(Answers(script, calls)) + Content(Remaining(script, calls)) == Content(script)
    decreases |calls|
  {
    if calls != [] {
      var next := if calls[0].Read? then Left(script, calls[0].size) else script;
      NothingIsLost(next, calls[1..]);
      ContentSplits(script, if calls[0].Read? then calls[0].size else 0);
      DeliveredFirst(Answers(script, calls)[0], Answers(next, calls[1..]));
    }
  }
}
