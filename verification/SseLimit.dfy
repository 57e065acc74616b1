/** The bound on the bytes of one event, as chunks arrive and as the whole stream has it. */
module SseLimit {
  import opened Wrappers
  import opened Lines

  ghost function Reading(w: Bytes): Cut {
    Feed(START, Body(w))
  }

  function Concat(chunks: seq<Bytes>): Bytes {
    if chunks == [] then [] else Concat(chunks[..|chunks| - 1]) + chunks[|chunks| - 1]
  }

  // ----- what the decoder counts

  /** Charge lines ending at `ends` one by one, the event under way having begun at `reset`.
      A blank line begins the next event; a line further than `limit` into its event is
      refused. */
  ghost function Tally(reset: int, lines: seq<Bytes>, ends: seq<int>, limit: int): Option<int>
    requires |lines| == |ends|
  {
    var n := |lines| - 1;
    if n < 0 then Some(reset)
    else
      var t := Tally(reset, lines[..n], ends[..n], limit);
      if t.None? then None
      else if lines[n] == [] then Some(ends[n])
      else if ends[n] - t.value <= limit then t else None
  }

  /** Bytes held against the event under way once `w` has arrived. */
  ghost function Load(w: Bytes, reset: int): int {
    if Undecided(w) then |w| else |Body(w)| - reset
  }

  /** One push behind `w`: the lines it completes are charged, and then what is left over. */
  ghost function PushCount(w: Bytes, chunk: Bytes, reset: int, limit: int): Option<int> {
    var c0, c1 := Reading(w), Reading(w + chunk);
    ReadingGrows(w, chunk);
    var m := |c0.lines|;
    var t := Tally(reset, c1.lines[m..], c1.ends[m..], limit);
    if t.Some? && Load(w + chunk, t.value) <= limit then t else None
  }

  /** A whole delivery; `None` is a refusal. */
  ghost function Count(chunks: seq<Bytes>, limit: int): Option<int> {
    if chunks == [] then Some(0)
    else
      var n := |chunks| - 1;
      var t := Count(chunks[..n], limit);
      if t.None? then None else PushCount(Concat(chunks[..n]), chunks[n], t.value, limit)
  }

  ghost predicate Accepted(chunks: seq<Bytes>, limit: int) {
    Count(chunks, limit).Some?
  }

  // ----- how a reading grows

  /** `r` reads on from `c`: lines are appended, and at most the last one turns out to end in
      CRLF rather than CR. */
  ghost predicate Continues(c: Cut, r: Cut) {
    var m := |c.lines|;
    && |c.lines| == |c.ends| && |r.lines| == |r.ends| && c.lines <= r.lines
    && (|| r.ends[..m] == c.ends
        || (c.afterCr && m > 0 && r.ends[..m] == c.ends[m - 1 := c.n + 1]))
  }

  lemma {:induction false} FeedContinues(c: Cut, s: Bytes)
    requires |c.lines| == |c.ends|
    ensures Continues(c, Feed(c, s))
    ensures s != [] && Feed(c, s).afterCr ==> |Feed(c, s).lines| > |c.lines|
  {
    var m := |c.lines|;
    if s == [] {
      assert c.ends[..m] == c.ends;
    } else {
      var n := |s| - 1;
      FeedContinues(c, s[..n]);
      var r, r' := Feed(c, s[..n]), Feed(c, s);
      assert r' == Step(r, s[n]);
      if |r.lines| > m || r'.lines != r.lines {
        assert r'.ends[..m] == r.ends[..m];
      }
    }
  }

  lemma ReadingGrows(w: Bytes, more: Bytes)
    ensures Continues(Reading(w), Reading(w + more))
    ensures more != [] && Reading(w + more).afterCr ==> |Reading(w + more).lines| > |Reading(w).lines|
  {
    hide Feed, Step;
    if !Undecided(w) {
      BodyGrows(w, more);
      FeedAppend(START, Body(w), more);
      FeedContinues(Reading(w), more);
    } else {
      FeedNothing(START);
      FeedContinues(START, Body(w + more));
    }
  }

  // ----- tallies compared

  lemma TallyNext(reset: int, lines: seq<Bytes>, ends: seq<int>, line: Bytes, end: int, limit: int)
    requires |lines| == |ends|
    ensures var t := Tally(reset, lines, ends, limit);
            Tally(reset, lines + [line], ends + [end], limit) ==
            if t.None? then None
            else if line == [] then Some(end)
            else if end - t.value <= limit then t else None
  {
    assert (lines + [line])[..|lines|] == lines && (ends + [end])[..|ends|] == ends;
  }

  lemma {:induction false} TallySplit(reset: int, lines: seq<Bytes>, ends: seq<int>, m: nat, limit: int)
    requires m <= |lines| == |ends|
    ensures var t := Tally(reset, lines[..m], ends[..m], limit);
            Tally(reset, lines, ends, limit) == if t.None? then None else Tally(t.value, lines[m..], ends[m..], limit)
    decreases |lines|
  {
    var n := |lines| - 1;
    if m == |lines| {
      assert lines[..m] == lines && ends[..m] == ends;
    } else {
      TallySplit(reset, lines[..n], ends[..n], m, limit);
      assert lines[..n][..m] == lines[..m] && ends[..n][..m] == ends[..m];
      assert lines[..n][m..] == lines[m..][..n - m] && ends[..n][m..] == ends[m..][..n - m];
    }
  }

  /** A later start by at most one byte keeps what was accepted, and one byte of limit less
      rejects what was rejected. */
  lemma {:induction false} TallyNear(t: int, u: int, lines: seq<Bytes>, ends: seq<int>, limit: int)
    requires t <= u <= t + 1 && |lines| == |ends|
    ensures var a := Tally(t, lines, ends, limit);
            && (a.Some? ==> var b := Tally(u, lines, ends, limit); b.Some? && a.value <= b.value <= a.value + 1)
            && (a.None? ==> Tally(u, lines, ends, limit - 1).None?)
  {
    var n := |lines| - 1;
    if n >= 0 {
      TallyNear(t, u, lines[..n], ends[..n], limit);
      TallyLooser(u, lines[..n], ends[..n], limit - 1, limit);
    }
  }

  lemma {:induction false} TallyLooser(t: int, lines: seq<Bytes>, ends: seq<int>, limit: int, limit': int)
    requires limit <= limit' && |lines| == |ends|
    ensures Tally(t, lines, ends, limit).Some? ==> Tally(t, lines, ends, limit') == Tally(t, lines, ends, limit)
  {
    var n := |lines| - 1;
    if n >= 0 {
      TallyLooser(t, lines[..n], ends[..n], limit, limit');
    }
  }

  // ----- one piece

  ghost function Whole(c: Cut, limit: int): Option<int>
    requires |c.lines| == |c.ends|
  {
    Tally(0, c.lines, c.ends, limit)
  }

  lemma OnePush(w: Bytes, limit: int)
    ensures var t := Whole(Reading(w), limit);
            Accepted([w], limit) <==> t.Some? && Load(w, t.value) <= limit
  {
    hide Feed, Tally;
    FeedNothing(START);
    assert [w][..0] == [] && Concat([w]) == w && Concat([]) + w == w && [] + w == w;
    assert Count([w][..0], limit) == Some(0);
    var c := Reading(w);
    assert c.lines[0..] == c.lines && c.ends[0..] == c.ends;
  }

  // ----- chunks against one piece

  /** The chunked count `t` of the event under way is exact or one byte low. */
  ghost predicate Near(c: Cut, t: int, limit: int)
    requires |c.lines| == |c.ends|
  {
    Whole(c, limit).Some? && t <= Whole(c, limit).value <= t + 1
  }

  /** The last line, counted to its CR, leaves room for an LF behind it. */
  ghost predicate JustEnded(c: Cut, t: int, limit: int)
    requires |c.lines| == |c.ends|
  {
    var n := |c.lines| - 1;
    && n >= 0 && c.ends[n] == c.n
    && if c.lines[n] == [] then t == c.n
       else var u := Tally(0, c.lines[..n], c.ends[..n], limit + 1); u.Some? && c.n - u.value <= limit
  }

  ghost predicate Measured(c: Cut, t: int, limit: int) {
    && |c.lines| == |c.ends|
    && Near(c, t, limit + 1)
    && (c.afterCr ==> JustEnded(c, t, limit))
  }

  /** The lines already counted, one of them perhaps ending an LF later than it seemed. */
  lemma NearAfterGrowth(c: Cut, r: Cut, t: int, limit: int)
    requires Measured(c, t, limit) && Continues(c, r)
    ensures var m := |c.lines|;
            var u := Tally(0, r.lines[..m], r.ends[..m], limit + 1);
            u.Some? && t <= u.value <= t + 1
  {
    var m := |c.lines|;
    assert r.lines[..m] == c.lines;
    if r.ends[..m] != c.ends {
      var n := m - 1;
      assert r.ends[..m][..n] == c.ends[..n];
    }
  }

  lemma {:induction false} ReadingEndsAtCr(s: Bytes)
    ensures var c := Feed(START, s); c.afterCr ==> c.ends != [] && c.ends[|c.ends| - 1] == c.n
  {
    if s != [] {
      ReadingEndsAtCr(s[..|s| - 1]);
    }
  }

  lemma PushNear(w: Bytes, chunk: Bytes, t: int, limit: int)
    requires Measured(Reading(w), t, limit)
    ensures var p := PushCount(w, chunk, t, limit);
            if p.Some? then Measured(Reading(w + chunk), p.value, limit) && Accepted([w + chunk], limit + 1)
            else !Accepted([w + chunk], limit - 1)
  {
    hide Feed, Tally, Accepted, Body;
    var c, r := Reading(w), Reading(w + chunk);
    var m := |c.lines|;
    ReadingGrows(w, chunk);
    var new', ends' := r.lines[m..], r.ends[m..];
    NearAfterGrowth(c, r, t, limit);
    var u := Tally(0, r.lines[..m], r.ends[..m], limit + 1).value;
    TallySplit(0, r.lines, r.ends, m, limit + 1);
    TallySplit(0, r.lines, r.ends, m, limit - 1);
    TallyLooser(0, r.lines[..m], r.ends[..m], limit - 1, limit + 1);
    TallyNear(t, u, new', ends', limit);
    TallyLooser(u, new', ends', limit, limit + 1);
    TallyLooser(u, new', ends', limit - 1, limit + 1);
    OnePush(w + chunk, limit + 1);
    OnePush(w + chunk, limit - 1);
    if PushCount(w, chunk, t, limit).Some? && r.afterCr {
      StillJustEnded(w, chunk, t, u, limit);
    }
  }

  lemma StillJustEnded(w: Bytes, chunk: Bytes, t: int, u: int, limit: int)
    requires Measured(Reading(w), t, limit) && Reading(w + chunk).afterCr
    requires PushCount(w, chunk, t, limit).Some?
    requires var r := Reading(w + chunk); var m := |Reading(w).lines|;
             m <= |r.lines| == |r.ends| && Tally(0, r.lines[..m], r.ends[..m], limit + 1) == Some(u) && t <= u <= t + 1
    ensures JustEnded(Reading(w + chunk), PushCount(w, chunk, t, limit).value, limit)
  {
    hide Feed, Body, Tally;
    var c, r := Reading(w), Reading(w + chunk);
    var m, n := |c.lines|, |r.lines| - 1;
    ReadingGrows(w, chunk);
    ReadingEndsAtCr(Body(w + chunk));
    if chunk == [] {
      assert w + chunk == w && r.lines[m..] == [] && r.ends[m..] == [];
      TallyNone(t, limit);
    } else {
      var new', ends' := r.lines[m..], r.ends[m..];
      TallyNext(t, new'[..n - m], ends'[..n - m], r.lines[n], r.ends[n], limit);
      assert new' == new'[..n - m] + [r.lines[n]] && ends' == ends'[..n - m] + [r.ends[n]];
      assert new'[..n - m] == r.lines[..n][m..] && ends'[..n - m] == r.ends[..n][m..];
      assert r.lines[..n][..m] == r.lines[..m] && r.ends[..n][..m] == r.ends[..m];
      TallySplit(0, r.lines[..n], r.ends[..n], m, limit + 1);
      TallyNear(t, u, new'[..n - m], ends'[..n - m], limit);
      TallyLooser(u, new'[..n - m], ends'[..n - m], limit, limit + 1);
    }
  }

  lemma {:induction false} CountNear(chunks: seq<Bytes>, limit: nat)
    ensures var t := Count(chunks, limit); t.Some? ==> Measured(Reading(Concat(chunks)), t.value, limit)
  {
    if chunks == [] {
      FeedNothing(START);
    } else {
      var n := |chunks| - 1;
      CountNear(chunks[..n], limit);
      if Count(chunks[..n], limit).Some? {
        PushNear(Concat(chunks[..n]), chunks[n], Count(chunks[..n], limit).value, limit);
      }
    }
  }

  /** However a stream is cut, what is accepted in chunks is accepted in one piece by a limit
      one byte larger. */
  lemma AcceptedWithinOneByte(chunks: seq<Bytes>, limit: nat)
    requires Accepted(chunks, limit)
    ensures Accepted([Concat(chunks)], limit + 1)
  {
    hide Feed, Tally, Body;
    if chunks == [] {
      FeedNothing(START);
      OnePush([], limit + 1);
      NoLines(limit + 1);
    } else {
      var n := |chunks| - 1;
      CountNear(chunks[..n], limit);
      PushNear(Concat(chunks[..n]), chunks[n], Count(chunks[..n], limit).value, limit);
    }
  }

  lemma NoLines(limit: int)
    ensures Whole(Reading([]), limit) == Some(0)
  {
    FeedNothing(START);
  }

  /** And what is refused in chunks was refused at some chunk, where the bytes so far are
      refused in one piece by a limit one byte smaller. */
  lemma {:induction false} RefusedWithinOneByte(chunks: seq<Bytes>, limit: nat)
    requires !Accepted(chunks, limit)
    ensures exists k :: 0 < k <= |chunks| && !Accepted([Concat(chunks[..k])], limit - 1)
  {
    var n := |chunks| - 1;
    if Accepted(chunks[..n], limit) {
      CountNear(chunks[..n], limit);
      PushNear(Concat(chunks[..n]), chunks[n], Count(chunks[..n], limit).value, limit);
      assert chunks[..n + 1] == chunks;
    } else {
      RefusedWithinOneByte(chunks[..n], limit);
      var k :| 0 < k <= n && !Accepted([Concat(chunks[..n][..k])], limit - 1);
      assert chunks[..n][..k] == chunks[..k];
    }
  }

  // ----- byte by byte

  /** One byte ends at most one line, and at the very byte counted last. */
  lemma ByteGrows(w: Bytes, b: Byte) returns (d: Cut)
    ensures d.lines == Reading(w).lines && d.ends == Reading(w).ends
    ensures Reading(w + [b]) == d || Reading(w + [b]) == Step(d, b)
    ensures Undecided(w + [b]) ==> Reading(w + [b]) == d
    ensures BOM <= w + [b] && Undecided(w) ==> Reading(w + [b]) == d
  {
    hide Feed, Step;
    FeedNothing(START);
    d := Reading(w);
    if !Undecided(w) {
      BodyGrows(w, [b]);
      FeedByte(START, Body(w), b);
    } else if !Undecided(w + [b]) && !(BOM <= w + [b]) {
      assert OneLine(w);
      FeedOneLine(START, w);
      FeedByte(START, w, b);
      d := Feed(START, w);
    }
  }

  lemma StepWithin(d: Cut, b: Byte, t: int, limit: int)
    requires |d.lines| == |d.ends| && Near(d, t, limit)
    requires var c := Step(d, b); |c.lines| == |c.ends|
    requires var c := Step(d, b); var m := |d.lines|;
             var p := Tally(t, c.lines[m..], c.ends[m..], limit); p.Some? && c.n - p.value <= limit
    ensures Whole(Step(d, b), limit).Some?
  {
    var c := Step(d, b);
    var m := |d.lines|;
    if b == LF && d.afterCr && d.ends != [] {
      assert c.lines[m..] == [] && c.ends[m..] == [];
      assert c.lines[..m - 1] == d.lines[..m - 1] && c.ends[..m - 1] == d.ends[..m - 1];
    } else if IsEnd(b) {
      assert c.lines[m..] == [d.cur] && c.ends[m..] == [c.n];
      TallyNext(0, d.lines, d.ends, d.cur, c.n, limit);
      TallyNext(t, [], [], d.cur, c.n, limit);
      assert [] + [d.cur] == [d.cur] && [] + [c.n] == [c.n];
    }
  }

  lemma ByteIsExact(v: Bytes, b: Byte, t: int, limit: int)
    requires Accepted([v], limit) && Measured(Reading(v), t, limit)
    requires PushCount(v, [b], t, limit).Some?
    ensures Accepted([v + [b]], limit)
  {
    hide Feed, Tally, Body, Step, Accepted;
    var w := v + [b];
    PushNear(v, [b], t, limit);
    OnePush(v, limit);
    OnePush(w, limit);
    ReadingGrows(v, [b]);
    var c, r := Reading(v), Reading(w);
    TallyLooser(0, c.lines, c.ends, limit, limit + 1);
    var d := ByteGrows(v, b);
    if r != d {
      StepWithin(d, b, t, limit);
    }
    TallyLooser(0, r.lines, r.ends, limit, limit + 1);
  }

  /** Delivered byte by byte, nothing is undercounted: what is accepted is accepted in one
      piece by the same limit. */
  lemma {:induction false} BytewiseIsExact(chunks: seq<Bytes>, limit: nat)
    requires Accepted(chunks, limit) && forall c :: c in chunks ==> |c| == 1
    ensures Accepted([Concat(chunks)], limit)
  {
    hide Feed, Tally, Body, PushCount;
    if chunks == [] {
      NoLines(limit);
      OnePush([], limit);
    } else {
      var n := |chunks| - 1;
      var b := chunks[n][0];
      assert chunks[n] == [b];
      BytewiseIsExact(chunks[..n], limit);
      CountNear(chunks[..n], limit);
      ByteIsExact(Concat(chunks[..n]), b, Count(chunks[..n], limit).value, limit);
    }
  }

  // ----- no CRLF cut in two

  ghost predicate CutsNoCrLf(chunks: seq<Bytes>) {
    forall k :: 0 < k < |chunks| ==> !CutsCrLf(Concat(chunks[..k]), chunks[k])
  }

  predicate CutsCrLf(w: Bytes, chunk: Bytes) {
    w != [] && w[|w| - 1] == CR && chunk != [] && chunk[0] == LF
  }

  lemma AfterCrEndsInCr(w: Bytes)
    ensures Reading(w).afterCr ==> w != [] && w[|w| - 1] == CR
  {
    var s := Body(w);
    if s != [] {
      FeedByte(START, s[..|s| - 1], s[|s| - 1]);
      assert s[..|s| - 1] + [s[|s| - 1]] == s;
    }
  }

  lemma {:induction false} FeedKeepsEnds(c: Cut, s: Bytes)
    requires |c.lines| == |c.ends| && !(c.afterCr && s != [] && s[0] == LF)
    ensures |Feed(c, s).ends| >= |c.ends|
    ensures Feed(c, s).ends[..|c.ends|] == c.ends
    ensures s != [] && Feed(c, s).afterCr ==> |Feed(c, s).ends| > |c.ends|
  {
    var m := |c.ends|;
    if s == [] {
      assert c.ends[..m] == c.ends;
    } else {
      var n := |s| - 1;
      FeedKeepsEnds(c, s[..n]);
      var r, r' := Feed(c, s[..n]), Feed(c, s);
      assert r' == Step(r, s[n]);
      assert r'.ends[..m] == r.ends[..m];
    }
  }

  lemma UncutKeepsEnds(w: Bytes, chunk: Bytes)
    requires !CutsCrLf(w, chunk)
    ensures var m := |Reading(w).ends|;
            m <= |Reading(w + chunk).ends| && Reading(w + chunk).ends[..m] == Reading(w).ends
  {
    hide Feed;
    AfterCrEndsInCr(w);
    if !Undecided(w) {
      BodyGrows(w, chunk);
      FeedAppend(START, Body(w), chunk);
      FeedKeepsEnds(Reading(w), chunk);
    } else {
      FeedNothing(START);
    }
  }

  /** When no chunk boundary cuts a CRLF in two, the chunked count is the count of the whole
      and nothing passes that one piece would not. */
  lemma {:induction false} UncutIsExact(chunks: seq<Bytes>, limit: nat)
    requires Accepted(chunks, limit) && CutsNoCrLf(chunks)
    ensures Accepted([Concat(chunks)], limit)
    ensures Count(chunks, limit) == Whole(Reading(Concat(chunks)), limit)
  {
    hide Feed, Tally, Body;
    var w := Concat(chunks);
    if chunks == [] {
      NoLines(limit);
      OnePush([], limit);
    } else {
      var n := |chunks| - 1;
      var v := Concat(chunks[..n]);
      UncutButLast(chunks, limit);
      UncutIsExact(chunks[..n], limit);
      var c, r := Reading(v), Reading(w);
      ReadingGrows(v, chunks[n]);
      UncutKeepsEnds(v, chunks[n]);
      assert r.lines[..|c.lines|] == c.lines;
      TallySplit(0, r.lines, r.ends, |c.lines|, limit);
      OnePush(w, limit);
    }
  }

  // ----- what a prefix was charged

  /** The line under way is the first to be ended, behind every byte read so far; with no
      line under way the last one ended at the byte read last. */
  lemma {:induction false} FeedFirstNew(c: Cut, s: Bytes)
    requires |c.lines| == |c.ends| && !(c.afterCr && s != [] && s[0] == LF)
    ensures var r, m := Feed(c, s), |c.lines|;
            && m <= |r.lines| == |r.ends|
            && if |r.lines| == m then c.cur <= r.cur else c.cur <= r.lines[m] && c.n <= r.ends[m]
  {
    if s != [] {
      var n := |s| - 1;
      FeedFirstNew(c, s[..n]);
      FeedKeepsEnds(c, s[..n]);
      var r := Feed(c, s[..n]);
      assert Feed(c, s) == Step(r, s[n]);
      assert c.n <= r.n;
      if n == 0 {
        assert r == c;
      }
    }
  }

  lemma {:induction false} EndsAtLineStart(s: Bytes)
    ensures var c := Feed(START, s);
            c.cur == [] ==> if c.ends == [] then c.n == 0 else c.ends[|c.ends| - 1] == c.n
  {
    if s != [] {
      EndsAtLineStart(s[..|s| - 1]);
    }
  }

  /** The last line, when it ends where the bytes do, is within the limit. */
  lemma LastLineCharged(lines: seq<Bytes>, ends: seq<int>, limit: nat)
    requires |lines| == |ends| && lines != [] && Tally(0, lines, ends, limit).Some?
    ensures ends[|ends| - 1] - Tally(0, lines, ends, limit).value <= limit
  {
  }

  /** The next line, unless it is blank, is charged to the event under way. */
  lemma NextLineCharged(lines: seq<Bytes>, ends: seq<int>, m: nat, limit: int)
    requires m < |lines| == |ends| && lines[m] != [] && Tally(0, lines, ends, limit).Some?
    ensures Tally(0, lines[..m], ends[..m], limit).Some?
    ensures ends[m] - Tally(0, lines[..m], ends[..m], limit).value <= limit
  {
    hide Tally;
    TallySplit(0, lines, ends, m + 1, limit);
    assert lines[..m + 1] == lines[..m] + [lines[m]] && ends[..m + 1] == ends[..m] + [ends[m]];
    TallyNext(0, lines[..m], ends[..m], lines[m], ends[m], limit);
  }

  /** What is accepted in one piece was within the limit at every byte on the way, but for a
      CR whose LF is still to come and a BOM not yet recognised. */
  lemma PrefixAccepted(w: Bytes, more: Bytes, limit: nat)
    requires Accepted([w + more], limit) && !CutsCrLf(w, more) && (Undecided(w) ==> |w| <= limit)
    ensures Accepted([w], limit)
  {
    hide Feed, Tally, Body, Accepted;
    var c, r := Reading(w), Reading(w + more);
    var m := |c.lines|;
    ReadingGrows(w, more);
    UncutKeepsEnds(w, more);
    OnePush(w, limit);
    OnePush(w + more, limit);
    assert r.lines[..m] == c.lines;
    TallySplit(0, r.lines, r.ends, m, limit);
    if !Undecided(w) {
      BodyGrows(w, more);
      FeedAppend(START, Body(w), more);
      AfterCrEndsInCr(w);
      FeedFirstNew(c, more);
      EndsAtLineStart(Body(w));
      if |r.lines| == m {
        assert r.lines[m..] == [] && r.ends[m..] == [];
        TallyNone(Whole(c, limit).value, limit);
      } else if r.lines[m] != [] {
        NextLineCharged(r.lines, r.ends, m, limit);
      } else if m > 0 {
        LastLineCharged(c.lines, c.ends, limit);
      } else {
        assert c.lines == [] && c.ends == [];
        TallyNone(0, limit);
      }
    }
  }

  /** A delivery whose BOM, if it has one, is not cut off before the limit allows it. */
  ghost predicate BomFits(chunks: seq<Bytes>, limit: int) {
    forall k :: 0 < k < |chunks| && Undecided(Concat(chunks[..k])) ==> |Concat(chunks[..k])| <= limit
  }

  lemma UncutButLast(chunks: seq<Bytes>, limit: int)
    requires chunks != []
    ensures CutsNoCrLf(chunks) ==> CutsNoCrLf(chunks[..|chunks| - 1])
    ensures BomFits(chunks, limit) ==> BomFits(chunks[..|chunks| - 1], limit)
  {
    var n := |chunks| - 1;
    assert forall k :: 0 <= k <= n ==> chunks[..n][..k] == chunks[..k];
  }

  /** With no CRLF and no BOM cut, the verdict of the chunks is the verdict of the whole. */
  lemma {:induction false} UncutVerdictIff(chunks: seq<Bytes>, limit: nat)
    requires CutsNoCrLf(chunks) && BomFits(chunks, limit)
    ensures Accepted(chunks, limit) <==> Accepted([Concat(chunks)], limit)
  {
    hide Feed, Tally, Body;
    if Accepted(chunks, limit) {
      UncutIsExact(chunks, limit);
    } else {
      var n := |chunks| - 1;
      var v := Concat(chunks[..n]);
      UncutButLast(chunks, limit);
      UncutVerdictIff(chunks[..n], limit);
      if Accepted([Concat(chunks)], limit) {
        if n > 0 {
          PrefixAccepted(v, chunks[n], limit);
        }
        UncutIsExact(chunks[..n], limit);
        UncutPush(v, chunks[n], limit);
      }
    }
  }

  lemma UncutPush(v: Bytes, chunk: Bytes, limit: nat)
    requires !CutsCrLf(v, chunk) && Whole(Reading(v), limit).Some? && Accepted([v + chunk], limit)
    ensures PushCount(v, chunk, Whole(Reading(v), limit).value, limit).Some?
  {
    hide Feed, Tally, Body, Accepted;
    var c, r := Reading(v), Reading(v + chunk);
    ReadingGrows(v, chunk);
    UncutKeepsEnds(v, chunk);
    assert r.lines[..|c.lines|] == c.lines;
    TallySplit(0, r.lines, r.ends, |c.lines|, limit);
    OnePush(v + chunk, limit);
  }

  // ----- a CRLF cut in two

  /** Where a boundary cuts a CRLF, the event so far and the LF are within the limit. */
  ghost predicate CutsCharged(chunks: seq<Bytes>, limit: int) {
    forall k :: 0 < k < |chunks| && CutsCrLf(Concat(chunks[..k]), chunks[k]) ==>
      Accepted([Concat(chunks[..k]) + [LF]], limit)
  }

  lemma CutsChargedButLast(chunks: seq<Bytes>, limit: int)
    requires chunks != [] && CutsCharged(chunks, limit)
    ensures CutsCharged(chunks[..|chunks| - 1], limit)
  {
    var n := |chunks| - 1;
    assert forall k :: 0 <= k <= n ==> chunks[..n][..k] == chunks[..k];
  }

  /** A push behind bytes the whole accepts, counted from a start no later than the whole's. */
  lemma PushBehind(v: Bytes, chunk: Bytes, x: Bytes, more: Bytes, t: int, limit: nat)
    requires v + chunk == x + more && !CutsCrLf(x, more)
    requires |Reading(x).lines| == |Reading(v).lines| && Whole(Reading(x), limit).Some?
    requires t <= Whole(Reading(x), limit).value <= t + 1 && PushCount(v, chunk, t, limit).Some?
    ensures Accepted([v + chunk], limit)
  {
    hide Feed, Tally, Body, Accepted;
    var c, r := Reading(x), Reading(v + chunk);
    var m := |c.lines|;
    ReadingGrows(v, chunk);
    ReadingGrows(x, more);
    UncutKeepsEnds(x, more);
    assert r.lines[..m] == c.lines;
    TallySplit(0, r.lines, r.ends, m, limit);
    TallyNear(t, Whole(c, limit).value, r.lines[m..], r.ends[m..], limit);
    OnePush(v + chunk, limit);
  }

  /** Only a CRLF cut in two can be undercounted: what is accepted in chunks is accepted in one
      piece if and only if every such LF is within the limit where it stands. */
  lemma CountedInFullIff(chunks: seq<Bytes>, limit: nat)
    requires Accepted(chunks, limit)
    ensures Accepted([Concat(chunks)], limit) <==> CutsCharged(chunks, limit)
  {
    hide Accepted, CutsCrLf, Concat;
    if Accepted([Concat(chunks)], limit) {
      forall k | 0 < k < |chunks| && CutsCrLf(Concat(chunks[..k]), chunks[k])
        ensures Accepted([Concat(chunks[..k]) + [LF]], limit)
      {
        var rest := BehindPrefix(chunks, k);
        CutCharged(Concat(chunks[..k]), chunks[k], rest, limit);
      }
    }
    if CutsCharged(chunks, limit) {
      ChargedIsAccepted(chunks, limit);
    }
  }

  lemma CutCharged(v: Bytes, chunk: Bytes, rest: Bytes, limit: nat)
    requires CutsCrLf(v, chunk) && chunk <= rest && Accepted([v + rest], limit)
    ensures Accepted([v + [LF]], limit)
  {
    hide Accepted;
    var x := v + [LF];
    assert v + rest == x + rest[1..];
    assert x[|v|] == LF && x[|v| - 1] == CR;
    PrefixAccepted(x, rest[1..], limit);
  }

  lemma {:induction false} BehindPrefix(chunks: seq<Bytes>, k: nat) returns (rest: Bytes)
    requires k < |chunks|
    ensures Concat(chunks) == Concat(chunks[..k]) + rest && chunks[k] <= rest
  {
    var n := |chunks| - 1;
    if k == n {
      rest := chunks[n];
    } else {
      var shorter := BehindPrefix(chunks[..n], k);
      assert chunks[..n][..k] == chunks[..k];
      rest := shorter + chunks[n];
    }
  }

  lemma {:induction false} ChargedIsAccepted(chunks: seq<Bytes>, limit: nat)
    requires Accepted(chunks, limit) && CutsCharged(chunks, limit)
    ensures Accepted([Concat(chunks)], limit)
  {
    hide Feed, Tally, Body, PushCount;
    if chunks == [] {
      NoLines(limit);
      OnePush([], limit);
    } else {
      var n := |chunks| - 1;
      var v, t := Concat(chunks[..n]), Count(chunks[..n], limit).value;
      CutsChargedButLast(chunks, limit);
      ChargedIsAccepted(chunks[..n], limit);
      CountNear(chunks[..n], limit);
      OnePush(v, limit);
      if CutsCrLf(v, chunks[n]) && n > 0 {
        CutPush(v, chunks[n], t, limit);
      } else {
        assert n == 0 ==> v == [];
        var c := Reading(v);
        TallyLooser(0, c.lines, c.ends, limit, limit + 1);
        PushBehind(v, chunks[n], v, chunks[n], t, limit);
      }
    }
  }

  lemma CutPush(v: Bytes, chunk: Bytes, t: int, limit: nat)
    requires CutsCrLf(v, chunk) && Accepted([v + [LF]], limit) && Measured(Reading(v), t, limit)
    requires PushCount(v, chunk, t, limit).Some?
    ensures Accepted([v + chunk], limit)
  {
    hide Feed, Tally, Body, Accepted, PushCount;
    var x := v + [LF];
    var c, d := Reading(v), Reading(x);
    OnePush(x, limit);
    ReadingGrows(v, [LF]);
    LfMovesTheEnd(v);
    NearAfterGrowth(c, d, t, limit);
    assert d.lines[..|c.lines|] == d.lines && d.ends[..|c.lines|] == d.ends;
    TallyLooser(0, d.lines, d.ends, limit, limit + 1);
    assert chunk == [LF] + chunk[1..];
    assert v + chunk == x + chunk[1..];
    assert x[|x| - 1] == LF;
    PushBehind(v, chunk, x, chunk[1..], t, limit);
  }

  /** The LF of a CRLF ends no line of its own; it moves the end of the last one. */
  lemma CrThenLf(before: Cut)
    requires |before.lines| == |before.ends|
    ensures var c := Step(before, CR);
            var d, m := Step(c, LF), |c.ends|;
            c.afterCr && 0 < m == |c.lines| && d.lines == c.lines && d.ends == c.ends[m - 1 := c.ends[m - 1] + 1]
  {
  }

  lemma BodyEndsInCr(v: Bytes)
    requires v != [] && v[|v| - 1] == CR
    ensures !Undecided(v) && Body(v) != [] && Body(v)[..|Body(v)| - 1] + [CR] == Body(v)
  {
    assert !Undecided(v);
    assert Body(v) != [] && Body(v)[|Body(v)| - 1] == CR;
  }

  lemma LfMovesTheEnd(v: Bytes)
    requires v != [] && v[|v| - 1] == CR
    ensures var c, d := Reading(v), Reading(v + [LF]);
            var m := |c.ends|;
            c.afterCr && 0 < m == |c.lines| && d.lines == c.lines && d.ends == c.ends[m - 1 := c.ends[m - 1] + 1]
    ensures !Undecided(v) && !Undecided(v + [LF]) && |Body(v + [LF])| == |Body(v)| + 1
  {
    hide Feed, Step, Body, Undecided;
    BodyEndsInCr(v);
    BodyGrows(v, [LF]);
    var s := Body(v);
    var before := s[..|s| - 1];
    FeedByte(START, s, LF);
    FeedByte(START, before, CR);
    CrThenLf(Feed(START, before));
  }

  // ----- the LF that chunking can hide

  const A_CR: Bytes := [97, CR]
  const A_CR_LF_LF: Bytes := [97, CR, LF, LF]

  lemma HiddenByteReadings()
    ensures Reading(A_CR) == Cut([[97]], [2], [], true, 2) && !Undecided(A_CR) && |Body(A_CR)| == 2
    ensures Reading(A_CR_LF_LF) == Cut([[97], []], [3, 4], [], false, 4)
    ensures !Undecided(A_CR_LF_LF) && |Body(A_CR_LF_LF)| == 4
  {
    FeedByte(START, [], 97);
    FeedByte(START, [97], CR);
    FeedByte(START, A_CR, LF);
    FeedByte(START, A_CR + [LF], LF);
    assert [] + [97] == [97] && [97] + [CR] == A_CR && A_CR + [LF] + [LF] == A_CR_LF_LF;
    assert Feed(START, A_CR) == Cut([[97]], [2], [], true, 2);
    assert Feed(START, A_CR + [LF]) == Cut([[97]], [3], [], false, 3);
    assert Body(A_CR) == A_CR && Body(A_CR_LF_LF) == A_CR_LF_LF;
  }

  /** A CRLF cut in two in front of a blank line: the LF is charged to the blank line, which
      charges nothing, so an event of three bytes passes a limit of two. */
  lemma CutCrLfHidesAByte()
    ensures Accepted([A_CR, [LF, LF]], 2) && !Accepted([A_CR_LF_LF], 2) && Concat([A_CR, [LF, LF]]) == A_CR_LF_LF
  {
    hide Feed, Body, Undecided, Tally;
    var chunks := [A_CR, [LF, LF]];
    assert chunks[..1] == [A_CR] && [A_CR][..0] == [] && Concat([A_CR]) == A_CR;
    assert A_CR + [LF, LF] == A_CR_LF_LF;
    HiddenByteReadings();
    var c, r := Reading(A_CR), Reading(A_CR_LF_LF);
    TallyNext(0, [], [], [97], 2, 2);
    TallyNext(0, [], [], [97], 3, 2);
    TallyNext(0, [], [], [], 4, 2);
    TallyNext(0, [[97]], [3], [], 4, 2);
    TallyNone(0, 2);
    assert [] + [[97]] == c.lines && [] + [2] == c.ends && [[97]] + [[]] == r.lines && [3] + [4] == r.ends;
    assert [] + [3] == [3] && [] + [[]] == r.lines[1..] && [] + [4] == r.ends[1..];
    OnePush(A_CR, 2);
    OnePush(A_CR_LF_LF, 2);
    FirstPush(A_CR, 2);
  }

  lemma TallyNone(reset: int, limit: int)
    ensures Tally(reset, [], [], limit) == Some(reset)
  {
  }

  lemma FirstPush(w: Bytes, limit: int)
    requires Accepted([w], limit)
    ensures Count([w], limit) == Whole(Reading(w), limit)
  {
    FeedNothing(START);
    assert [w][..0] == [] && [] + w == w;
    var c := Reading(w);
    assert c.lines[0..] == c.lines && c.ends[0..] == c.ends;
  }
}
