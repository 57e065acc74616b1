/** The decoder, fed in chunks. */
module SseDecoder {
  import opened Wrappers
  import opened Lines
  import opened SseDecode
  import opened SseLimit
  import Utf8

  /** Once every complete line is out, the lines read are those of the whole stream so far. */
  lemma Drained(cut: Cut, rest: Bytes, c: Cut)
    requires c == Feed(cut, rest) && OneLine(rest)
    ensures c.lines == cut.lines && c.ends == cut.ends && c.n == cut.n + |rest|
  {
    FeedOneLine(cut, rest);
  }

  lemma DrainedDecodes(cut: Cut, rest: Bytes, w: Bytes, lastId: Option<Bytes>)
    requires Reading(w) == Feed(cut, rest) && OneLine(rest)
    ensures OnLines(Fresh(lastId), cut.lines).queued == Decode(w, lastId)
  {
    hide Feed, OnLines, Split;
    var c := Reading(w);
    Drained(cut, rest, c);
    assert c.lines == Split(Body(w)) by {
      FeedIsSplit(START, Body(w));
    }
  }

  /** A line refused on the way refuses the push. */
  lemma PushRefused(w: Bytes, chunk: Bytes, cut: Cut, rest: Bytes, reset: int, limit: int)
    requires Reading(w + chunk) == Feed(cut, rest) && AtLineStart(cut, rest)
    requires var m := |Reading(w).lines|;
             m <= |cut.lines| == |cut.ends| && Tally(reset, cut.lines[m..], cut.ends[m..], limit).None?
    ensures PushCount(w, chunk, reset, limit).None?
  {
    hide Feed, Tally, Body;
    var m, n, c := |Reading(w).lines|, |cut.lines|, Reading(w + chunk);
    ReadingGrows(w, chunk);
    FeedExtends(cut, rest);
    TallySplit(reset, c.lines[m..], c.ends[m..], n - m, limit);
    assert c.lines[m..][..n - m] == cut.lines[m..] && c.ends[m..][..n - m] == cut.ends[m..];
  }

  /** With every line out, what is left to count is the unfinished event. */
  lemma PushDrained(w: Bytes, chunk: Bytes, cut: Cut, rest: Bytes, reset: int, reset': int, limit: int)
    requires Reading(w + chunk) == Feed(cut, rest) && OneLine(rest)
    requires var m := |Reading(w).lines|;
             m <= |cut.lines| == |cut.ends| && Tally(reset, cut.lines[m..], cut.ends[m..], limit) == Some(reset')
    ensures PushCount(w, chunk, reset, limit) == if Load(w + chunk, reset') <= limit then Some(reset') else None
    ensures Undecided(w + chunk) ==> cut.lines == []
  {
    hide Feed, Tally;
    FeedNothing(START);
    ReadingGrows(w, chunk);
    Drained(cut, rest, Reading(w + chunk));
  }

  lemma NothingOutYet(w: Bytes, cut: Cut, rest: Bytes)
    requires Reading(w) == Feed(cut, rest) && OneLine(rest)
    ensures Undecided(w) ==> cut.lines == []
  {
    hide Feed;
    FeedNothing(START);
    Drained(cut, rest, Reading(w));
  }

  /** `seed`, `taken`, `reset` and `handled` are ghosts: the last event ID the decoder was made
      with, the events already handed out, the byte count at the last blank line, and the
      lines that were not refused. */
  class Decoder {
    const splitter: LineSplitter
    const maxEventSize: int
    var eventBytes: int
    var data: Bytes
    var eventType: Option<Bytes>
    var lastEventId: Option<Bytes>
    var ready: seq<Event>
    ghost const seed: Option<Bytes>
    ghost var taken: seq<Event>
    ghost var reset: int
    ghost var handled: seq<Bytes>

    ghost function State(): Fields
      reads this
    {
      Fields(data, eventType, lastEventId, taken + ready)
    }

    ghost predicate Valid()
      reads this, splitter
    {
      && splitter.Valid()
      && State() == OnLines(Fresh(seed), handled)
      && eventBytes == splitter.credited - reset
      && (splitter.cut.lines == [] ==> reset == 0)
    }

    /** Between pushes: every complete line is out, and none was refused. */
    ghost predicate Idle()
      reads this, splitter
    {
      Valid() && handled == splitter.cut.lines && OneLine(splitter.buf[splitter.start..])
    }

    constructor (maxEventSize: int, lastEventId: Option<Bytes>)
      ensures Idle() && fresh(splitter)
      ensures splitter.fed == [] && seed == lastEventId && taken == ready == [] && reset == 0
      ensures this.maxEventSize == maxEventSize
    {
      splitter := new LineSplitter();
      this.maxEventSize := maxEventSize;
      this.lastEventId := lastEventId;
      eventBytes, data, eventType, ready := 0, [], None, [];
      seed, taken, reset, handled := lastEventId, [], 0, [];
    }

    method HandleLine(line: Bytes)
      requires line != []
      modifies this`data, this`eventType, this`lastEventId, this`ready
      ensures State() == SseDecode.HandleLine(old(State()), line)
    {
      hide Utf8.Lossy, FirstColon, ParseDigits, DropSpace;
      if line[0] == COLON {
        ready := ready + [Comment(Utf8.Lossy(DropSpace(line[1..])))];
        assert old(taken + ready) + [ready[|ready| - 1]] == taken + ready;
        return;
      }
      var i := FirstColon(line);
      var name, value := line[..i], if i < |line| then DropSpace(line[i + 1..]) else [];
      if name == DATA {
        data := data + Utf8.Lossy(value);
        data := data + [LF];
      } else if name == EVENT {
        eventType := Some(Utf8.Lossy(value));
      } else if name == ID {
        if NUL !in value {
          lastEventId := Some(Utf8.Lossy(value));
        }
      } else if name == RETRY && AllDigits(value) {
        var n := ParseDigits(value);
        ready := ready + [Retry(if n <= MAX_U64 then n else MAX_U64)];
        assert old(taken + ready) + [ready[|ready| - 1]] == taken + ready;
      }
    }

    method DispatchEvent()
      modifies this`data, this`eventType, this`ready
      ensures State() == Dispatch(old(State()))
    {
      var event := eventType;
      eventType := None;
      if data == [] {
        return;
      }
      var text := data;
      data := [];
      if text[|text| - 1] == LF {
        text := text[..|text| - 1];
      }
      ready := ready + [Message(event, text, lastEventId)];
      assert old(taken + ready) + [ready[|ready| - 1]] == taken + ready;
    }

    method Process(line: Bytes)
      modifies this`data, this`eventType, this`lastEventId, this`ready
      ensures State() == OnLine(old(State()), line)
    {
      hide Dispatch;
      if line == [] {
        DispatchEvent();
      } else {
        HandleLine(line);
      }
    }

    /** A blank line begins the next count; another is charged, and refused past the limit. */
    method ChargeAndProcess(line: Bytes, consumed: int) returns (ok: bool)
      requires State() == OnLines(Fresh(seed), handled)
      modifies this`eventBytes, this`reset, this`handled, this`data, this`eventType, this`lastEventId, this`ready
      ensures State() == OnLines(Fresh(seed), handled)
      ensures line == [] ==> ok && eventBytes == 0 && reset == splitter.credited
      ensures line != [] ==>
                eventBytes == old(eventBytes) + consumed && reset == old(reset) && (ok <==> eventBytes <= maxEventSize)
      ensures handled == old(handled) + if ok then [line] else []
    {
      hide OnLines, OnLine;
      OnLinesNext(Fresh(seed), handled, line);
      if line == [] {
        eventBytes, reset := 0, splitter.credited;
      } else {
        eventBytes := eventBytes + consumed;
        if eventBytes > maxEventSize {
          return false;
        }
      }
      Process(line);
      handled := handled + [line];
      ok := true;
    }

    /** Count and process every complete line that is buffered, `m` lines being out already.
        The verdict is that of tallying the new lines; the one refused is dropped. */
    method Drain(ghost m: nat) returns (r: Result<(), int>)
      requires Valid() && m == |splitter.cut.lines|
      modifies this, splitter`start, splitter`pendingCr, splitter`carried, splitter`cut, splitter`credited
      ensures Valid() && taken == old(taken) && m <= |splitter.cut.lines| == |splitter.cut.ends|
      ensures splitter.cut.lines[..m] == old(splitter.cut.lines) && splitter.cut.ends[..m] == old(splitter.cut.ends)
      ensures Tally(old(reset), splitter.cut.lines[m..], splitter.cut.ends[m..], maxEventSize) ==
              if r.Ok? then Some(reset) else None
      ensures r.Ok? ==> OneLine(splitter.buf[splitter.start..]) && handled == old(handled) + splitter.cut.lines[m..]
      ensures r.Err? ==> r.error == maxEventSize && m < |splitter.cut.lines|
      ensures r.Err? ==> handled == old(handled) + splitter.cut.lines[m..|splitter.cut.lines| - 1]
    {
      hide Feed, OnLines, OnLine, Body, Tally;
      ghost var lines, ends, out, outEnds := splitter.cut.lines, splitter.cut.ends, [], [];
      TallyNone(reset, maxEventSize);
      while true
        invariant Valid() && taken == old(taken) && |out| == |outEnds|
        invariant splitter.cut.lines == lines + out && splitter.cut.ends == ends + outEnds
        invariant Tally(old(reset), out, outEnds, maxEventSize) == Some(reset)
        invariant handled == old(handled) + out
        decreases |splitter.buf| - splitter.start
      {
        var next := splitter.NextLine();
        if next.None? {
          return Ok(());
        }
        var line := next.value.text;
        TallyNext(old(reset), out, outEnds, line, splitter.cut.n, maxEventSize);
        out, outEnds := out + [line], outEnds + [splitter.cut.n];
        var ok := ChargeAndProcess(line, next.value.consumed);
        if !ok {
          assert splitter.cut.lines[m..] == out && splitter.cut.ends[m..] == outEnds;
          return Err(maxEventSize);
        }
      }
    }

    /** Feed one chunk, to a decoder that has refused one before as well. Lines are handed out
        and tallied from where the last push left off; a line past the limit is refused and
        dropped, and so is the push, as it is when what is left over is past the limit. As
        long as nothing was refused the verdict is that of the count. */
    method Push(chunk: Bytes) returns (r: Result<(), int>)
      requires Valid()
      modifies this, splitter
      ensures Valid() && splitter.fed == old(splitter.fed) + chunk && taken == old(taken)
      ensures old(splitter.cut.lines) <= splitter.cut.lines && |splitter.cut.lines| == |splitter.cut.ends|
      ensures var m := |old(splitter.cut.lines)|;
              var t := Tally(old(reset), splitter.cut.lines[m..], splitter.cut.ends[m..], maxEventSize);
              && (r.Ok? <==> t.Some? && Load(splitter.fed, reset) <= maxEventSize)
              && (t.Some? ==> t.value == reset && handled == old(handled) + splitter.cut.lines[m..])
              && (t.None? ==> m < |splitter.cut.lines|)
              && (t.None? ==> handled == old(handled) + splitter.cut.lines[m..|splitter.cut.lines| - 1])
      ensures old(Idle()) ==>
                PushCount(old(splitter.fed), chunk, old(reset), maxEventSize) == if r.Ok? then Some(reset) else None
      ensures old(Idle()) && r.Ok? ==> Idle()
      ensures r.Err? ==> r.error == maxEventSize
    {
      hide Feed, OnLines, Tally, Body, PushCount, Undecided, OneLine;
      ghost var m := |splitter.cut.lines|;
      ghost var idle := Idle();
      if idle {
        Drained(splitter.cut, splitter.buf[splitter.start..], Reading(splitter.fed));
      }
      splitter.Push(chunk);
      r := Drain(m);
      ghost var rest := splitter.buf[splitter.start..];
      if r.Err? {
        if idle {
          PushRefused(old(splitter.fed), chunk, splitter.cut, rest, old(reset), maxEventSize);
        }
        return;
      }
      NothingOutYet(splitter.fed, splitter.cut, rest);
      if idle {
        PushDrained(old(splitter.fed), chunk, splitter.cut, rest, old(reset), reset, maxEventSize);
      }
      if eventBytes + splitter.BufferedLen() > maxEventSize {
        return Err(maxEventSize);
      }
    }

    method Next() returns (r: Option<Event>)
      requires Valid()
      modifies this`ready, this`taken
      ensures Valid() && (old(Idle()) ==> Idle())
      ensures taken + ready == old(taken + ready)
      ensures if old(ready) == [] then r == None && taken == old(taken)
              else
                && r == Some(old(ready)[0]) && taken == old(taken) + [old(ready)[0]]
                && ready == old(ready)[1..]
    {
      if ready == [] {
        return None;
      }
      r := Some(ready[0]);
      assert taken + ready == taken + [ready[0]] + ready[1..];
      taken, ready := taken + [ready[0]], ready[1..];
    }

    /** `Next` until it answers nothing. */
    method TakeReady() returns (events: seq<Event>)
      requires Valid()
      modifies this`ready, this`taken
      ensures Valid() && (old(Idle()) ==> Idle()) && ready == [] && events == old(ready) && taken == old(taken) + events
    {
      hide OnLines, Measured, Feed, Body;
      events := [];
      while ready != []
        invariant Valid() && (old(Idle()) ==> Idle()) && events + ready == old(ready) && taken == old(taken) + events
        decreases |ready|
      {
        var e := Next();
        events := events + [e.value];
      }
    }
  }

  lemma {:induction false} CountPrefix(chunks: seq<Bytes>, k: nat, limit: int)
    requires k <= |chunks| && Count(chunks[..k], limit).None?
    ensures Count(chunks, limit).None?
  {
    hide PushCount;
    if k == |chunks| {
      assert chunks[..k] == chunks;
    } else {
      var n := |chunks| - 1;
      assert chunks[..n][..k] == chunks[..k];
      CountPrefix(chunks[..n], k, limit);
    }
  }

  /** The decoder driven as a stream drives it: push a chunk, take what is ready. It is refused
      exactly when the count is; otherwise, however the stream is cut, the events are those
      of the whole. */
  method DecodeChunks(chunks: seq<Bytes>, limit: nat, lastId: Option<Bytes>) returns (r: Result<seq<Event>, int>)
    ensures r.Ok? <==> Accepted(chunks, limit)
    ensures r == if r.Ok? then Ok(Decode(Concat(chunks), lastId)) else Err(limit)
  {
    hide Feed, Body, OnLines, PushCount, Decode;
    var d := new Decoder(limit, lastId);
    var events := [];
    for k := 0 to |chunks|
      invariant fresh(d) && fresh(d.splitter)
      invariant d.Idle() && d.seed == lastId && d.maxEventSize == limit && d.ready == [] && d.taken == events
      invariant d.splitter.fed == Concat(chunks[..k]) && Count(chunks[..k], limit) == Some(d.reset)
    {
      assert chunks[..k + 1][..k] == chunks[..k];
      var pushed := d.Push(chunks[k]);
      if pushed.Err? {
        CountPrefix(chunks, k + 1, limit);
        return Err(limit);
      }
      var more := d.TakeReady();
      events := events + more;
    }
    assert chunks[..|chunks|] == chunks;
    DrainedDecodes(d.splitter.cut, d.splitter.buf[d.splitter.start..], d.splitter.fed, lastId);
    assert events + [] == events;
    r := Ok(events);
  }
}
