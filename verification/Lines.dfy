/** The line splitter under the SSE decoder: one leading BOM is dropped, and CRLF, LF and a
    lone CR each end a line, however the bytes are cut into chunks. */
module Lines {
  import opened Wrappers

  const LF: Byte := 10
  const CR: Byte := 13
  const BOM: Bytes := [0xEF, 0xBB, 0xBF]

  predicate IsEnd(b: Byte) {
    b == LF || b == CR
  }

  /** No line terminator inside. */
  predicate OneLine(s: Bytes) {
    forall i :: 0 <= i < |s| ==> !IsEnd(s[i])
  }

  // ----- what the lines of a whole stream are

  function FirstEnd(s: Bytes): (p: nat)
    ensures p <= |s| && OneLine(s[..p])
    ensures p < |s| ==> IsEnd(s[p])
  {
    FirstWhere(s, IsEnd)
  }

  /** The first position behind the terminator at `p`, CRLF being one terminator. */
  function Behind(s: Bytes, p: nat): (e: nat)
    requires p < |s|
    ensures p < e <= |s|
  {
    if s[p] == CR && p + 1 < |s| && s[p + 1] == LF then p + 2 else p + 1
  }

  function Split(s: Bytes): (lines: seq<Bytes>)
    decreases |s|
  {
    var p := FirstEnd(s);
    if p == |s| then [] else [s[..p]] + Split(s[Behind(s, p)..])
  }

  lemma {:induction false} SplitGivesLines(s: Bytes)
    ensures forall l :: l in Split(s) ==> OneLine(l)
    decreases |s|
  {
    var p := FirstEnd(s);
    if p < |s| {
      SplitGivesLines(s[Behind(s, p)..]);
    }
  }

  /** The bytes behind the last complete line. */
  function Tail(s: Bytes): Bytes
    decreases |s|
  {
    var p := FirstEnd(s);
    if p == |s| then s else Tail(s[Behind(s, p)..])
  }

  /** Fewer bytes than a BOM has, and so far a BOM. */
  predicate Undecided(w: Bytes) {
    w < BOM
  }

  /** The stream behind its BOM, if it opens with one; nothing while that is undecided. */
  function Body(w: Bytes): Bytes {
    if BOM <= w then w[3..] else if Undecided(w) then [] else w
  }

  // ----- the same reading, byte by byte

  /** `ends[k]` is the position behind line `k` and its whole terminator; `n` counts bytes. */
  datatype Cut = Cut(lines: seq<Bytes>, ends: seq<int>, cur: Bytes, afterCr: bool, n: nat)

  const START := Cut([], [], [], false, 0)

  function Step(c: Cut, b: Byte): Cut {
    if b == LF && c.afterCr && c.ends != [] then
      c.(ends := c.ends[|c.ends| - 1 := c.n + 1], afterCr := false, n := c.n + 1)
    else if IsEnd(b) then
      Cut(c.lines + [c.cur], c.ends + [c.n + 1], [], b == CR, c.n + 1)
    else
      c.(cur := c.cur + [b], afterCr := false, n := c.n + 1)
  }

  function Feed(c: Cut, s: Bytes): (r: Cut)
    ensures r.n == c.n + |s|
    ensures |c.lines| == |c.ends| ==> |r.lines| == |r.ends|
    decreases |s|
  {
    if s == [] then c else Step(Feed(c, s[..|s| - 1]), s[|s| - 1])
  }

  lemma FeedNothing(c: Cut)
    ensures Feed(c, []) == c
  {
  }

  lemma {:induction false} FeedAppend(c: Cut, a: Bytes, b: Bytes)
    ensures Feed(c, a + b) == Feed(Feed(c, a), b)
  {
    if b == [] {
      assert a + b == a;
    } else {
      assert (a + b)[..|a + b| - 1] == a + b[..|b| - 1];
      FeedAppend(c, a, b[..|b| - 1]);
    }
  }

  lemma {:induction false} FeedOneLine(c: Cut, s: Bytes)
    requires OneLine(s)
    ensures Feed(c, s) == if s == [] then c else c.(cur := c.cur + s, afterCr := false, n := c.n + |s|)
  {
    if s != [] {
      FeedOneLine(c, s[..|s| - 1]);
    }
  }

  /** A state between two lines that owes no LF to a CR before it. */
  ghost predicate AtLineStart(c: Cut, rest: Bytes) {
    c.cur == [] && |c.lines| == |c.ends| && (c.afterCr ==> c.ends != [] && (rest == [] || rest[0] != LF))
  }

  lemma FeedByte(c: Cut, s: Bytes, b: Byte)
    ensures Feed(c, s + [b]) == Step(Feed(c, s), b)
  {
    assert (s + [b])[..|s|] == s;
  }

  lemma FeedTerminated(c: Cut, line: Bytes, end: Byte)
    requires OneLine(line) && IsEnd(end) && AtLineStart(c, line + [end])
    ensures Feed(c, line + [end]) ==
            Cut(c.lines + [line], c.ends + [c.n + |line| + 1], [], end == CR, c.n + |line| + 1)
  {
    var c1 := Feed(c, line);
    FeedByte(c, line, end);
    assert c1.cur == line && c1.lines == c.lines && c1.ends == c.ends && !(end == LF && c1.afterCr) by {
      FeedOneLine(c, line);
      assert c.cur + line == line;
      assert line == [] ==> (line + [end])[0] == end;
    }
  }

  lemma FeedCrLf(c: Cut, line: Bytes)
    requires OneLine(line) && AtLineStart(c, line + [CR])
    ensures Feed(c, line + [CR] + [LF]) ==
            Cut(c.lines + [line], c.ends + [c.n + |line| + 2], [], false, c.n + |line| + 2)
  {
    FeedTerminated(c, line, CR);
    FeedByte(c, line + [CR], LF);
    var c1 := Feed(c, line + [CR]);
    assert c1.ends[|c1.ends| - 1 := c1.n + 1] == c.ends + [c.n + |line| + 2];
  }

  /** The automaton behind the first line of `s`. */
  ghost function AfterFirstLine(c: Cut, s: Bytes): Cut
    requires FirstEnd(s) < |s|
  {
    var p := FirstEnd(s);
    var e := Behind(s, p);
    Cut(c.lines + [s[..p]], c.ends + [c.n + e], [], s[p] == CR && e == p + 1, c.n + e)
  }

  lemma FeedFirstLine(c: Cut, s: Bytes)
    requires AtLineStart(c, s) && FirstEnd(s) < |s|
    ensures var e := Behind(s, FirstEnd(s));
            && Feed(c, s) == Feed(AfterFirstLine(c, s), s[e..])
            && AtLineStart(AfterFirstLine(c, s), s[e..])
  {
    hide Feed, FirstEnd;
    var p := FirstEnd(s);
    var e := Behind(s, p);
    assert Feed(c, s) == Feed(Feed(c, s[..e]), s[e..]) by {
      assert s == s[..e] + s[e..];
      FeedAppend(c, s[..e], s[e..]);
    }
    assert AtLineStart(c, s[..p] + [s[p]]) by {
      assert (s[..p] + [s[p]])[0] == s[0];
    }
    assert Feed(c, s[..e]) == AfterFirstLine(c, s) by {
      if e == p + 2 {
        assert s[..e] == s[..p] + [CR] + [LF];
        FeedCrLf(c, s[..p]);
      } else {
        assert s[..e] == s[..p] + [s[p]];
        FeedTerminated(c, s[..p], s[p]);
      }
    }
  }

  /** The automaton computes the lines and the tail of the whole stream. */
  lemma {:induction false} FeedIsSplit(c: Cut, s: Bytes)
    requires AtLineStart(c, s)
    ensures Feed(c, s).lines == c.lines + Split(s)
    ensures Feed(c, s).cur == Tail(s)
    decreases |s|
  {
    hide Feed, FirstEnd;
    var p := FirstEnd(s);
    if p == |s| {
      assert s[..p] == s;
      FeedOneLine(c, s);
    } else {
      FeedFirstLine(c, s);
      FeedIsSplit(AfterFirstLine(c, s), s[Behind(s, p)..]);
    }
  }

  /** What was read stays read: later bytes only append lines. */
  lemma {:induction false} FeedExtends(c: Cut, s: Bytes)
    requires AtLineStart(c, s)
    ensures c.lines <= Feed(c, s).lines && c.ends <= Feed(c, s).ends
    decreases |s|
  {
    hide Feed, FirstEnd;
    var p := FirstEnd(s);
    if p == |s| {
      assert s[..p] == s;
      FeedOneLine(c, s);
    } else {
      FeedFirstLine(c, s);
      FeedExtends(AfterFirstLine(c, s), s[Behind(s, p)..]);
    }
  }

  // ----- the splitter

  /** What holds between any two bytes: the automaton behind the lines handed out, fed the
      buffered `rest`, is the automaton fed the whole `body`; and every byte it has read is
      credited to a line or carried. */
  ghost predicate Reads(cut: Cut, rest: Bytes, body: Bytes, pendingCr: bool, carried: int, credited: int) {
    && Feed(START, body) == Feed(cut, rest)
    && AtLineStart(cut, rest)
    && (pendingCr ==> rest == [] && carried == 0 && cut.afterCr)
    && (cut.afterCr && !pendingCr ==> rest != [])
    && credited + carried == cut.n
  }

  lemma TakeKeeps(cut: Cut, rest: Bytes, body: Bytes, pendingCr: bool, carried: int, credited: int, b: Byte)
    requires Reads(cut, rest, body, pendingCr, carried, credited)
    ensures if pendingCr && b == LF then Reads(Step(cut, LF), rest, body + [b], false, carried + 1, credited)
            else Reads(cut, rest + [b], body + [b], false, carried, credited)
  {
    FeedByte(START, body, b);
    FeedByte(cut, rest, b);
  }

  /** Handing out the first line of `rest` credits it the bytes carried, its own and its
      terminator's, which brings the total to the line's exact end. */
  lemma NextLineKeeps(cut: Cut, rest: Bytes, body: Bytes, pendingCr: bool, carried: int, credited: int)
    requires Reads(cut, rest, body, pendingCr, carried, credited) && FirstEnd(rest) < |rest|
    ensures var p := FirstEnd(rest);
            var e := Behind(rest, p);
            Reads(AfterFirstLine(cut, rest), rest[e..], body, rest[p] == CR && e == |rest| == p + 1, 0,
                  credited + carried + e)
  {
    FeedFirstLine(cut, rest);
  }

  lemma NothingBehindPart(w: Bytes)
    ensures Undecided(w) ==> Body(w) == []
  {
  }

  lemma BodyGrows(w: Bytes, more: Bytes)
    ensures !Undecided(w) ==> !Undecided(w + more) && Body(w + more) == Body(w) + more
  {
    if !Undecided(w) {
      if BOM <= w {
        assert BOM <= w + more && (w + more)[3..] == w[3..] + more;
      } else {
        var i :| 0 <= i < |w| && i < 3 && w[i] != BOM[i];
        assert (w + more)[i] != BOM[i];
      }
    }
  }

  lemma BodyBehindBom(rest: Bytes)
    ensures !Undecided(BOM[..3] + rest) && Body(BOM[..3] + rest) == rest
  {
    assert BOM[..3] == BOM;
    assert (BOM + rest)[3..] == rest;
  }

  lemma BodyWithoutBom(k: nat, rest: Bytes)
    requires k < 3 && rest != [] && rest[0] != BOM[k]
    ensures !Undecided(BOM[..k] + rest) && Body(BOM[..k] + rest) == BOM[..k] + rest
  {
    assert (BOM[..k] + rest)[k] == rest[0];
  }

  datatype Line = Line(text: Bytes, consumed: int)

  /** Ghost state ties the buffer to the whole stream: `fed` is every byte pushed, `body` those
      behind the BOM, `cut` the automaton behind every line handed out, and `credited` the
      bytes those lines were charged. */
  class LineSplitter {
    var buf: Bytes
    var start: nat
    var bomSeen: nat
    var bomDone: bool
    var pendingCr: bool
    var carried: int
    ghost var fed: Bytes
    ghost var body: Bytes
    ghost var cut: Cut
    ghost var credited: int

    ghost predicate Consistent()
      reads this
    {
      start <= |buf| && Reads(cut, buf[start..], body, pendingCr, carried, credited)
    }

    ghost predicate Valid()
      reads this
    {
      && Consistent()
      && body == Body(fed)
      && (if bomDone then !Undecided(fed) else bomSeen < 3 && fed == BOM[..bomSeen] && buf == [])
    }

    constructor ()
      ensures Valid() && fed == [] && cut == START && credited == 0 && !pendingCr
    {
      buf, start, bomSeen, bomDone, pendingCr, carried := [], 0, 0, false, false, 0;
      fed, body, cut, credited := [], [], START, 0;
    }

    method Push(chunk: Bytes)
      requires Valid()
      modifies this
      ensures Valid()
      ensures fed == old(fed) + chunk && credited == old(credited)
      ensures cut.lines == old(cut.lines)
    {
      hide Feed;
      if start > 0 {
        buf := buf[start..];
        start := 0;
      }
      var i := ResolveBom(chunk);
      TakeAll(chunk[i..]);
      fed := fed + chunk;
    }

    /** Hold back what may yet be a BOM; drop it once it is one, give it back once it is not. */
    method ResolveBom(chunk: Bytes) returns (i: nat)
      requires Valid() && start == 0
      modifies this`buf, this`bomSeen, this`bomDone, this`body
      ensures Consistent() && i <= |chunk|
      ensures if bomDone then !Undecided(fed + chunk) && body + chunk[i..] == Body(fed + chunk)
              else i == |chunk| && bomSeen < 3 && fed + chunk == BOM[..bomSeen] && buf == [] && body == []
    {
      hide Feed, Body;
      i := 0;
      FeedNothing(START);
      FeedNothing(cut);
      NothingBehindPart(fed);
      ghost var all := fed + chunk;
      BodyGrows(fed, chunk);
      assert chunk[0..] == chunk;
      while !bomDone && i < |chunk|
        invariant Consistent() && i <= |chunk|
        invariant if bomDone then !Undecided(all) && body + chunk[i..] == Body(all)
                  else cut == START && bomSeen < 3 && all == BOM[..bomSeen] + chunk[i..] && buf == [] && body == []
        decreases |chunk| - i, !bomDone
      {
        if chunk[i] == BOM[bomSeen] {
          assert BOM[..bomSeen] + chunk[i..] == BOM[..bomSeen + 1] + chunk[i + 1..];
          bomSeen := bomSeen + 1;
          i := i + 1;
          if bomSeen == 3 {
            BodyBehindBom(chunk[i..]);
            bomDone := true;
          }
        } else {
          BodyWithoutBom(bomSeen, chunk[i..]);
          buf := buf + BOM[..bomSeen];
          body := BOM[..bomSeen];
          bomDone := true;
        }
      }
    }

    /** The bytes behind the BOM: each is buffered, unless it is the LF that a CR at the end
        of the last chunk left owing. */
    method TakeAll(rest: Bytes)
      requires Consistent() && start == 0
      modifies this`buf, this`pendingCr, this`carried, this`cut, this`body
      ensures Consistent() && body == old(body) + rest
      ensures rest == [] ==> buf == old(buf)
      ensures cut.lines == old(cut.lines)
    {
      hide Feed, Step;
      for i := 0 to |rest|
        invariant Consistent() && body == old(body) + rest[..i]
        invariant i == 0 ==> buf == old(buf)
        invariant cut.lines == old(cut.lines)
      {
        Take(rest[i]);
        assert rest[..i + 1] == rest[..i] + [rest[i]];
      }
    }

    method Take(b: Byte)
      requires Consistent() && start == 0
      modifies this`buf, this`pendingCr, this`carried, this`cut, this`body
      ensures Consistent() && body == old(body) + [b] && cut.lines == old(cut.lines)
    {
      hide Feed;
      assert buf[start..] == buf;
      TakeKeeps(cut, buf, body, pendingCr, carried, credited, b);
      if pendingCr && b == LF {
        pendingCr, carried, cut, body := false, carried + 1, Step(cut, LF), body + [b];
      } else {
        pendingCr, buf, body := false, buf + [b], body + [b];
      }
      assert buf[start..] == buf;
    }

    /** The next complete line and the bytes it is charged, or nothing when none is buffered. */
    method NextLine() returns (r: Option<Line>)
      requires Valid()
      modifies this`start, this`pendingCr, this`carried, this`cut, this`credited
      ensures Valid()
      ensures r.None? ==> OneLine(buf[start..]) && cut == old(cut) && credited == old(credited)
      ensures r.Some? ==> old(start) < start
      ensures r.Some? ==> cut.lines == old(cut.lines) + [r.value.text]
      ensures r.Some? ==> credited == old(credited) + r.value.consumed == cut.n
      ensures r.Some? ==> cut.ends == old(cut.ends) + [cut.n]
    {
      hide Feed, FirstEnd;
      var hay := buf[start..];
      var pos := FirstEnd(hay);
      if pos == |hay| {
        assert hay[..pos] == hay;
        return None;
      }
      var size, owing := pos + 1, pendingCr;
      if hay[pos] == CR {
        if size < |hay| && hay[size] == LF {
          size := size + 1;
        } else if size == |hay| {
          owing := true;
        }
      }
      NextLineKeeps(cut, hay, body, pendingCr, carried, credited);
      assert size == Behind(hay, pos);
      assert buf[start + size..] == hay[size..];
      r := Some(Line(hay[..pos], size + carried));
      start, pendingCr, carried, cut, credited :=
        start + size, owing, 0, AfterFirstLine(cut, hay), credited + size + carried;
    }

    /** Bytes taken off the wire that no line has been charged with yet. */
    function BufferedLen(): (n: int)
      requires Valid()
      reads this
      ensures credited + n == if Undecided(fed) then |fed| else |Body(fed)|
    {
      |buf| - start + (if bomDone then 0 else bomSeen) + carried
    }
  }
}
