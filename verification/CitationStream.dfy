/** Publishing a streamed completion: chunks that never cut a citation, each citation announced once. */
module CitationStream {
  import opened Text
  import opened CitationGrammar

  const FLUSH_THRESHOLD := 100
  const FORCE_FLUSH_THRESHOLD := 2000

  datatype Event =
    | CitationFound(cite: Citation)
    | Chunk(content: string, citations: seq<Citation>)

  // ---------------------------------------------------------------- one flush

  /** How much of the buffer may go out: everything, or up to a trailing `[` that is not a complete citation. */
  function FlushTo(buffer: string, force: bool): (k: nat)
    ensures k <= |buffer|
  {
    if force || |buffer| >= FORCE_FLUSH_THRESHOLD then |buffer| else
    var open := LastIndexOf(buffer, '[', |buffer|);
    if open < |buffer| && MatchPrefix(ENFORCER, buffer[open..]).None? then open else |buffer|
  }

  function Citations(content: string): seq<Citation> {
    var cites := Cites(FindAll(ENFORCER, content, 0));
    seq(|cites|, i requires 0 <= i < |cites| => Trim(cites[i]))
  }

  /** The citations not seen before, each once, in order. */
  function Fresh(cites: seq<Citation>, seen: set<Citation>): seq<Citation> {
    if cites == [] then []
    else if cites[0] in seen then Fresh(cites[1..], seen)
    else [cites[0]] + Fresh(cites[1..], seen + {cites[0]})
  }

  function Elements<T>(s: seq<T>): set<T> {
    set x | x in s
  }

  function Announce(cites: seq<Citation>): seq<Event> {
    seq(|cites|, i requires 0 <= i < |cites| => CitationFound(cites[i]))
  }

  function EventsOf(content: string, seen: set<Citation>): seq<Event> {
    Announce(Fresh(Citations(content), seen)) + [Chunk(content, Citations(content))]
  }

  // ---------------------------------------------------------------- the whole stream

  // What one delta sends, and what stays in the buffer after it. A delta without content is skipped.
  function Sent(buffer: string, delta: string): (s: string)
    ensures s <= buffer + delta
  {
    var b := buffer + delta;
    if delta == "" || |b| < FLUSH_THRESHOLD then "" else b[..FlushTo(b, false)]
  }

  function Held(buffer: string, delta: string): string {
    (buffer + delta)[|Sent(buffer, delta)|..]
  }

  /** The contents of the `chunk` events of a stream. */
  function Chunks(buffer: string, deltas: seq<string>): seq<string>
    decreases |deltas|
  {
    if deltas == [] then Sending(buffer)
    else Sending(Sent(buffer, deltas[0])) + Chunks(Held(buffer, deltas[0]), deltas[1..])
  }

  function Sending(content: string): seq<string> {
    if content == "" then [] else [content]
  }

  function Events(chunks: seq<string>, seen: set<Citation>): seq<Event> {
    if chunks == [] then []
    else EventsOf(chunks[0], seen) + Events(chunks[1..], seen + Elements(Citations(chunks[0])))
  }

  class StreamingCall {
    var seen: set<Citation>
    var events: seq<Event>

    constructor ()
      ensures seen == {} && events == []
    {
      seen, events := {}, [];
    }

    method FlushChunk(buffer: string, force: bool) returns (remainder: string)
      modifies this
      ensures remainder == buffer[FlushTo(buffer, force)..]
      ensures var k := FlushTo(buffer, force);
        if k == 0 then events == old(events) && seen == old(seen)
        else
          && events == old(events) + EventsOf(buffer[..k], old(seen))
          && seen == old(seen) + Elements(Citations(buffer[..k]))
    {
      hide MatchPrefix, LastIndexOf, FindAll;
      var flushTo := |buffer|;
      if !force && |buffer| < FORCE_FLUSH_THRESHOLD {
        var lastOpen := LastIndexOf(buffer, '[', |buffer|);
        if lastOpen < |buffer| && MatchPrefix(ENFORCER, buffer[lastOpen..]).None? {
          flushTo := lastOpen;
        }
      }
      if flushTo == 0 {
        return buffer;
      }
      var flushed := buffer[..flushTo];
      remainder := buffer[flushTo..];
      var citations := Citations(flushed);
      PublishFresh(citations);
      events := events + [Chunk(flushed, citations)];
    }

    method PublishFresh(citations: seq<Citation>)
      modifies this
      ensures events == old(events) + Announce(Fresh(citations, old(seen)))
      ensures seen == old(seen) + Elements(citations)
    {
      ghost var all := Announce(Fresh(citations, seen));
      for i := 0 to |citations|
        invariant events + Announce(Fresh(citations[i..], seen)) == old(events) + all
        invariant seen == old(seen) + Elements(citations[..i])
      {
        assert citations[i..][1..] == citations[i + 1..];
        assert citations[..i + 1] == citations[..i] + [citations[i]];
        AnnounceCons(citations[i], Fresh(citations[i + 1..], seen + {citations[i]}));
        if citations[i] !in seen {
          seen := seen + {citations[i]};
          events := events + [CitationFound(citations[i])];
        }
      }
      assert citations[..|citations|] == citations;
    }

    // The body of the stream loop.
    method Receive(buffer: string, delta: string) returns (held: string)
      modifies this
      ensures held == Held(buffer, delta)
      ensures var sent := Sent(buffer, delta);
        if sent == "" then events == old(events) && seen == old(seen)
        else events == old(events) + EventsOf(sent, old(seen)) && seen == old(seen) + Elements(Citations(sent))
    {
      hide FlushTo, EventsOf, Citations, Elements;
      held := buffer + delta;
      if delta != "" && |held| >= FLUSH_THRESHOLD {
        held := FlushChunk(held, false);
      }
    }

    method Run(deltas: seq<string>)
      requires seen == {} && events == []
      modifies this
      ensures events == Events(Chunks("", deltas), {})
    {
      hide Sent, Held, FlushTo, EventsOf, Citations, Elements;
      var buffer := "";
      for i := 0 to |deltas|
        invariant events + Events(Chunks(buffer, deltas[i..]), seen) == Events(Chunks("", deltas), {})
      {
        assert deltas[i..][1..] == deltas[i + 1..];
        ChunksCons(buffer, deltas[i..], seen);
        buffer := Receive(buffer, deltas[i]);
      }
      assert deltas[|deltas|..] == [];
      if buffer != "" {
        ForcedFlush(buffer);
        assert buffer[..|buffer|] == buffer;
        var _ := FlushChunk(buffer, true);
      }
    }
  }

  lemma ForcedFlush(buffer: string)
    ensures FlushTo(buffer, true) == |buffer|
  {
  }

  lemma AnnounceCons(c: Citation, rest: seq<Citation>)
    ensures Announce([c] + rest) == [CitationFound(c)] + Announce(rest)
  {
  }

  lemma ChunksCons(buffer: string, deltas: seq<string>, seen: set<Citation>)
    requires deltas != []
    ensures var sent := Sent(buffer, deltas[0]); var rest := Chunks(Held(buffer, deltas[0]), deltas[1..]);
      Events(Chunks(buffer, deltas), seen) ==
        if sent == "" then Events(rest, seen)
        else EventsOf(sent, seen) + Events(rest, seen + Elements(Citations(sent)))
  {
    hide Sent, Held, EventsOf, Citations, Elements;
    var sent := Sent(buffer, deltas[0]);
    var rest := Chunks(Held(buffer, deltas[0]), deltas[1..]);
    if sent == "" {
      assert [] + rest == rest;
    } else {
      assert ([sent] + rest)[1..] == rest;
    }
  }
}
