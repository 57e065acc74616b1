/** The verdict on every delivery in closed form, and where chunks and one piece differ. */
module SseVerdict {
  import opened Wrappers
  import opened Lines
  import opened SseLimit

  // ----- every verdict in closed form

  /** Where the event that line `j` belongs to begins: behind the last blank line before it. */
  ghost function EventStart(lines: seq<Bytes>, ends: seq<int>, j: nat): int
    requires j <= |lines| == |ends|
  {
    if j == 0 then 0 else if lines[j - 1] == [] then ends[j - 1] else EventStart(lines, ends, j - 1)
  }

  /** No line ends further than `limit` into its event. */
  ghost predicate LinesWithin(lines: seq<Bytes>, ends: seq<int>, limit: int)
    requires |lines| == |ends|
  {
    forall j :: 0 <= j < |lines| && lines[j] != [] ==> ends[j] - EventStart(lines, ends, j) <= limit
  }

  lemma {:induction false} EventStartOfPrefix(lines: seq<Bytes>, ends: seq<int>, m: nat, j: nat)
    requires j <= m <= |lines| == |ends|
    ensures EventStart(lines[..m], ends[..m], j) == EventStart(lines, ends, j)
  {
    if j > 0 {
      EventStartOfPrefix(lines, ends, m, j - 1);
    }
  }

  /** What the running tally computes. */
  lemma {:induction false} TallyIs(lines: seq<Bytes>, ends: seq<int>, limit: int)
    requires |lines| == |ends|
    ensures Tally(0, lines, ends, limit) ==
            if LinesWithin(lines, ends, limit) then Some(EventStart(lines, ends, |lines|)) else None
  {
    if lines != [] {
      var n := |lines| - 1;
      TallyIs(lines[..n], ends[..n], limit);
      forall j | 0 <= j <= n
        ensures EventStart(lines[..n], ends[..n], j) == EventStart(lines, ends, j)
      {
        EventStartOfPrefix(lines, ends, n, j);
      }
      assert LinesWithin(lines, ends, limit) <==>
             && LinesWithin(lines[..n], ends[..n], limit)
             && (lines[n] != [] ==> ends[n] - EventStart(lines, ends, n) <= limit);
    }
  }

  /** A stream in one piece is accepted if and only if no line, and not what is left over
      behind the last one, is further than the limit into its event. */
  lemma InOnePiece(w: Bytes, limit: int)
    ensures var c := Reading(w);
            Accepted([w], limit) <==>
            LinesWithin(c.lines, c.ends, limit) && Load(w, EventStart(c.lines, c.ends, |c.lines|)) <= limit
  {
    hide Feed, Tally, Body, Accepted;
    OnePush(w, limit);
    TallyIs(Reading(w).lines, Reading(w).ends, limit);
  }

  /** The lines complete once `k` chunks have arrived. */
  ghost function LinesOut(chunks: seq<Bytes>, k: nat): nat
    requires k <= |chunks|
  {
    |Reading(Concat(chunks[..k])).lines|
  }

  /** Where each line was taken to end when it was handed out. */
  ghost function Charged(chunks: seq<Bytes>): (ends: seq<int>)
    ensures |ends| == |Reading(Concat(chunks)).lines|
  {
    FeedNothing(START);
    if chunks == [] then []
    else
      var n := |chunks| - 1;
      ReadingGrows(Concat(chunks[..n]), chunks[n]);
      assert |Charged(chunks[..n])| == LinesOut(chunks, n);
      Charged(chunks[..n]) + Reading(Concat(chunks)).ends[LinesOut(chunks, n)..]
  }

  /** What is held against the event under way once the chunks have arrived. */
  ghost function Held(chunks: seq<Bytes>): int {
    Load(Concat(chunks), EventStart(Reading(Concat(chunks)).lines, Charged(chunks), |Charged(chunks)|))
  }

  ghost predicate HeldWithin(chunks: seq<Bytes>, limit: int) {
    forall k :: 0 < k <= |chunks| ==> Held(chunks[..k]) <= limit
  }

  lemma ChargedGrows(chunks: seq<Bytes>)
    requires chunks != []
    ensures var n := |chunks| - 1;
            var r, m := Reading(Concat(chunks)), LinesOut(chunks, n);
            && m <= |r.lines| == |r.ends| && r.lines[..m] == Reading(Concat(chunks[..n])).lines
            && Charged(chunks)[..m] == Charged(chunks[..n]) && Charged(chunks)[m..] == r.ends[m..]
  {
    var n := |chunks| - 1;
    ReadingGrows(Concat(chunks[..n]), chunks[n]);
  }

  lemma {:induction false} HeldWithinButLast(chunks: seq<Bytes>, limit: int)
    requires chunks != []
    ensures HeldWithin(chunks, limit) <==> HeldWithin(chunks[..|chunks| - 1], limit) && Held(chunks) <= limit
  {
    hide Held;
    var n := |chunks| - 1;
    assert chunks[..n + 1] == chunks;
    assert forall k :: 0 <= k <= n ==> chunks[..n][..k] == chunks[..k];
    if HeldWithin(chunks[..n], limit) && Held(chunks) <= limit {
      forall k | 0 < k <= |chunks|
        ensures Held(chunks[..k]) <= limit
      {
        assert k <= n ==> Held(chunks[..n][..k]) <= limit;
      }
    }
    if HeldWithin(chunks, limit) {
      forall k | 0 < k <= n
        ensures Held(chunks[..n][..k]) <= limit
      {
        assert Held(chunks[..k]) <= limit;
      }
      assert Held(chunks[..n + 1]) <= limit;
    }
  }

  /** The count of any delivery in closed form, the lines ending where they were charged. */
  lemma {:induction false} CountIs(chunks: seq<Bytes>, limit: nat)
    ensures var lines, ends := Reading(Concat(chunks)).lines, Charged(chunks);
            Count(chunks, limit) ==
            if LinesWithin(lines, ends, limit) && HeldWithin(chunks, limit) then Some(EventStart(lines, ends, |lines|))
            else None
  {
    hide Feed, Tally, Body, Charged, LinesWithin, EventStart, HeldWithin;
    var w := Concat(chunks);
    TallyIs(Reading(w).lines, Charged(chunks), limit);
    if chunks == [] {
      CountOfNothing(limit);
    } else {
      var n := |chunks| - 1;
      var v, r := Concat(chunks[..n]), Reading(w);
      CountIs(chunks[..n], limit);
      TallyIs(Reading(v).lines, Charged(chunks[..n]), limit);
      ChargedGrows(chunks);
      TallySplit(0, r.lines, Charged(chunks), LinesOut(chunks, n), limit);
      HeldWithinButLast(chunks, limit);
    }
  }

  lemma CountOfNothing(limit: nat)
    ensures Reading(Concat([])).lines == [] && Charged([]) == []
    ensures LinesWithin([], [], limit) && HeldWithin([], limit) && EventStart([], [], 0) == 0
  {
    FeedNothing(START);
  }

  /** Every delivery is accepted if and only if no line is further into its event than the
      limit, and neither is what is held behind any chunk; the lines end where they were
      charged, which is an LF short of where they do end if a boundary cuts their CRLF. */
  lemma AcceptedIff(chunks: seq<Bytes>, limit: nat)
    ensures Accepted(chunks, limit) <==>
            LinesWithin(Reading(Concat(chunks)).lines, Charged(chunks), limit) && HeldWithin(chunks, limit)
    ensures |Charged(chunks)| == |Reading(Concat(chunks)).ends|
    ensures forall j :: 0 <= j < |Charged(chunks)| ==>
              Charged(chunks)[j] == Reading(Concat(chunks)).ends[j] - if CutLine(chunks, j) then 1 else 0
  {
    CountIs(chunks, limit);
    ChargedIs(chunks);
  }

  // ----- where a line was charged

  /** A boundary cuts the CRLF that ends line `j`. */
  ghost predicate CutLine(chunks: seq<Bytes>, j: int) {
    exists k :: 0 < k < |chunks| && CutsCrLf(Concat(chunks[..k]), chunks[k]) && LinesOut(chunks, k) == j + 1
  }

  /** The LF of a cut CRLF moves the end of the last line, and of no other, by one. */
  lemma CutMovesOneEnd(v: Bytes, chunk: Bytes)
    requires CutsCrLf(v, chunk)
    ensures var c, r := Reading(v), Reading(v + chunk);
            var m := |c.ends|;
            c.afterCr && 0 < m <= |r.ends| && r.ends[..m] == c.ends[m - 1 := c.ends[m - 1] + 1]
  {
    hide Feed;
    var x := v + [LF];
    LfMovesTheEnd(v);
    assert v + chunk == x + chunk[1..];
    assert x[|x| - 1] == LF;
    UncutKeepsEnds(x, chunk[1..]);
  }

  lemma {:induction false} LinesOutGrows(chunks: seq<Bytes>, k: nat, n: nat)
    requires k <= n <= |chunks|
    ensures LinesOut(chunks, k) <= LinesOut(chunks, n)
    ensures k < n && chunks[k] != [] && Reading(Concat(chunks[..n])).afterCr ==>
              LinesOut(chunks, k) < LinesOut(chunks, n)
  {
    hide Feed, Body;
    if k < n {
      var rest := BehindPrefix(chunks[..n], k);
      assert chunks[..n][..k] == chunks[..k];
      ReadingGrows(Concat(chunks[..k]), rest);
    }
  }

  /** The last chunk cuts a line of its own or leaves the cuts before it as they were. */
  lemma CutLineButLast(chunks: seq<Bytes>, j: int)
    requires chunks != []
    ensures var n := |chunks| - 1;
            var m, cut := LinesOut(chunks, n), n > 0 && CutsCrLf(Concat(chunks[..n]), chunks[n]);
            && (CutLine(chunks, j) <==> CutLine(chunks[..n], j) || (cut && j == m - 1))
            && (CutLine(chunks, j) ==> j < m)
            && (cut ==> !CutLine(chunks[..n], m - 1))
  {
    hide Feed, Body;
    var n := |chunks| - 1;
    assert forall k :: 0 <= k <= n ==> chunks[..n][..k] == chunks[..k];
    assert forall k :: 0 <= k <= n ==> LinesOut(chunks[..n], k) == LinesOut(chunks, k);
    forall k | 0 <= k <= n
      ensures LinesOut(chunks, k) <= LinesOut(chunks, n)
      ensures k < n && chunks[k] != [] && Reading(Concat(chunks[..n])).afterCr ==>
                LinesOut(chunks, k) < LinesOut(chunks, n)
    {
      LinesOutGrows(chunks, k, n);
    }
    if n > 0 && CutsCrLf(Concat(chunks[..n]), chunks[n]) {
      CutMovesOneEnd(Concat(chunks[..n]), chunks[n]);
    }
  }

  /** A line is charged where it ends, less the LF of a cut CRLF. */
  lemma {:induction false} ChargedIs(chunks: seq<Bytes>)
    ensures |Charged(chunks)| == |Reading(Concat(chunks)).ends|
    ensures forall j :: 0 <= j < |Charged(chunks)| ==>
              Charged(chunks)[j] == Reading(Concat(chunks)).ends[j] - if CutLine(chunks, j) then 1 else 0
  {
    hide Feed, Body, CutLine;
    if chunks != [] {
      var n := |chunks| - 1;
      var v := Concat(chunks[..n]);
      ChargedIs(chunks[..n]);
      ChargedGrows(chunks);
      var e, r, m := Charged(chunks), Reading(v + chunks[n]), LinesOut(chunks, n);
      if CutsCrLf(v, chunks[n]) {
        CutMovesOneEnd(v, chunks[n]);
      } else {
        UncutKeepsEnds(v, chunks[n]);
      }
      forall j | 0 <= j < |e|
        ensures e[j] == r.ends[j] - if CutLine(chunks, j) then 1 else 0
      {
        CutLineButLast(chunks, j);
        if j < m {
          assert e[j] == e[..m][j] && r.ends[j] == r.ends[..m][j];
        } else {
          assert e[j] == e[m..][j - m];
        }
      }
    }
  }

  // ----- a blank line cut in two

  ghost predicate NoBlank(lines: seq<Bytes>, i: int, j: int)
    requires 0 <= i && j <= |lines|
  {
    forall x :: i <= x < j ==> lines[x] != []
  }

  /** An event begins behind a blank line, or with the stream. */
  lemma {:induction false} EventBegins(lines: seq<Bytes>, ends: seq<int>, j: nat) returns (b: int)
    requires j <= |lines| == |ends|
    ensures -1 <= b < j && NoBlank(lines, b + 1, j) && (b >= 0 ==> lines[b] == [])
    ensures EventStart(lines, ends, j) == if b < 0 then 0 else ends[b]
  {
    if j == 0 {
      b := -1;
    } else if lines[j - 1] == [] {
      b := j - 1;
    } else {
      b := EventBegins(lines, ends, j - 1);
    }
  }

  lemma EventBeginsAt(lines: seq<Bytes>, ends: seq<int>, b: nat, j: nat)
    requires b < j <= |lines| == |ends| && lines[b] == [] && NoBlank(lines, b + 1, j)
    ensures EventStart(lines, ends, j) == ends[b]
  {
    var b' := EventBegins(lines, ends, j);
  }

  /** The event behind blank line `b`, counted from that line's CR so that the LF is charged to
      it, is within the limit at each of its lines and behind each chunk that ends inside it. */
  ghost predicate FitsWithLf(chunks: seq<Bytes>, b: nat, limit: int)
    requires b < |Charged(chunks)|
  {
    var lines, p := Reading(Concat(chunks)).lines, Charged(chunks)[b];
    && (forall j :: b < j < |lines| && NoBlank(lines, b + 1, j + 1) ==> Charged(chunks)[j] - p <= limit)
    && (forall k :: 0 < k <= |chunks| && b < LinesOut(chunks, k) <= |lines| &&
                    NoBlank(lines, b + 1, LinesOut(chunks, k)) ==>
          |Body(Concat(chunks[..k]))| - p <= limit)
  }

  ghost predicate BlankCutsFit(chunks: seq<Bytes>, limit: int) {
    forall b :: 0 <= b < |Charged(chunks)| && Reading(Concat(chunks)).lines[b] == [] && CutLine(chunks, b) ==>
      FitsWithLf(chunks, b, limit)
  }

  /** What is held behind `k` chunks, in terms of the lines of the whole. */
  lemma HeldIs(chunks: seq<Bytes>, k: nat)
    requires k <= |chunks|
    ensures var lines := Reading(Concat(chunks)).lines;
            && LinesOut(chunks, k) <= |lines|
            && Held(chunks[..k]) == Load(Concat(chunks[..k]), EventStart(lines, Charged(chunks), LinesOut(chunks, k)))
  {
    hide Feed, Body, Load, EventStart, Charged;
    ChargedPrefix(chunks, k);
    var m := LinesOut(chunks, k);
    assert Reading(Concat(chunks)).lines[..m] == Reading(Concat(chunks[..k])).lines;
    assert Charged(chunks)[..m] == Charged(chunks[..k]);
    EventStartOfPrefix(Reading(Concat(chunks)).lines, Charged(chunks), LinesOut(chunks, k), LinesOut(chunks, k));
  }

  lemma {:induction false} ChargedPrefix(chunks: seq<Bytes>, k: nat)
    requires k <= |chunks|
    ensures Reading(Concat(chunks[..k])).lines <= Reading(Concat(chunks)).lines
    ensures Charged(chunks[..k]) <= Charged(chunks)
  {
    hide Feed, Body, Charged;
    if k == |chunks| {
      assert chunks[..k] == chunks;
    } else {
      var n := |chunks| - 1;
      ChargedPrefix(chunks[..n], k);
      assert chunks[..n][..k] == chunks[..k];
      ChargedGrows(chunks);
    }
  }

  lemma UndecidedHasNoLines(w: Bytes)
    requires Undecided(w)
    ensures Reading(w).lines == []
  {
    FeedNothing(START);
  }

  /** What one piece accepts is within the limit at every prefix, counted from where the whole
      has the event begin. */
  lemma PrefixWithin(v: Bytes, more: Bytes, limit: nat)
    requires Accepted([v + more], limit) && !Undecided(v)
    ensures var r, m := Reading(v + more), |Reading(v).lines|;
            m <= |r.lines| == |r.ends| && |Body(v)| - EventStart(r.lines, r.ends, m) <= limit
  {
    hide Feed, Body, Tally, Accepted, LinesWithin, EventStart;
    var m := |Reading(v).lines|;
    if CutsCrLf(v, more) {
      var x := v + [LF];
      LfMovesTheEnd(v);
      assert v + more == x + more[1..];
      assert x[|x| - 1] == LF;
      PrefixStart(x, more[1..], limit);
    } else {
      PrefixStart(v, more, limit);
    }
  }

  lemma PrefixStart(v: Bytes, more: Bytes, limit: nat)
    requires Accepted([v + more], limit) && !Undecided(v) && !CutsCrLf(v, more)
    ensures var r, m := Reading(v + more), |Reading(v).lines|;
            m <= |r.lines| == |r.ends| && |Body(v)| - EventStart(r.lines, r.ends, m) <= limit
  {
    hide Feed, Body, Tally, Accepted, LinesWithin, EventStart;
    var c, r, m := Reading(v), Reading(v + more), |Reading(v).lines|;
    PrefixAccepted(v, more, limit);
    InOnePiece(v, limit);
    ReadingGrows(v, more);
    UncutKeepsEnds(v, more);
    assert r.lines[..m] == c.lines && r.ends[..m] == c.ends;
    EventStartOfPrefix(r.lines, r.ends, m, m);
  }

  /** What one piece accepts, chunks accept if and only if no BOM is cut off past the limit and
      every event behind a blank line whose CRLF is cut has room for the LF. */
  lemma OverchargedIff(chunks: seq<Bytes>, limit: nat)
    requires Accepted([Concat(chunks)], limit)
    ensures Accepted(chunks, limit) <==> BomFits(chunks, limit) && BlankCutsFit(chunks, limit)
  {
    AcceptedIff(chunks, limit);
    if Accepted(chunks, limit) {
      AcceptedFits(chunks, limit);
    }
    if BomFits(chunks, limit) && BlankCutsFit(chunks, limit) {
      FitsLines(chunks, limit);
      FitsHeld(chunks, limit);
    }
  }

  lemma AcceptedFits(chunks: seq<Bytes>, limit: nat)
    requires LinesWithin(Reading(Concat(chunks)).lines, Charged(chunks), limit) && HeldWithin(chunks, limit)
    ensures BomFits(chunks, limit) && BlankCutsFit(chunks, limit)
  {
    hide Feed, Body, Charged, EventStart, Held, CutLine, Concat;
    var lines, ends := Reading(Concat(chunks)).lines, Charged(chunks);
    forall k | 0 < k < |chunks| && Undecided(Concat(chunks[..k]))
      ensures |Concat(chunks[..k])| <= limit
    {
      HeldIs(chunks, k);
      assert Held(chunks[..k]) <= limit;
    }
    forall b | 0 <= b < |ends| && lines[b] == [] && CutLine(chunks, b)
      ensures FitsWithLf(chunks, b, limit)
    {
      forall j | b < j < |lines| && NoBlank(lines, b + 1, j + 1)
        ensures ends[j] - ends[b] <= limit
      {
        EventBeginsAt(lines, ends, b, j);
      }
      forall k | 0 < k <= |chunks| && b < LinesOut(chunks, k) <= |lines| && NoBlank(lines, b + 1, LinesOut(chunks, k))
        ensures |Body(Concat(chunks[..k]))| - ends[b] <= limit
      {
        HeldIs(chunks, k);
        assert Held(chunks[..k]) <= limit;
        EventBeginsAt(lines, ends, b, LinesOut(chunks, k));
        if Undecided(Concat(chunks[..k])) {
          UndecidedHasNoLines(Concat(chunks[..k]));
        }
      }
    }
  }

  lemma FitsLines(chunks: seq<Bytes>, limit: nat)
    requires Accepted([Concat(chunks)], limit) && BlankCutsFit(chunks, limit)
    ensures LinesWithin(Reading(Concat(chunks)).lines, Charged(chunks), limit)
  {
    hide Feed, Body, Charged, EventStart, Accepted, CutLine, Concat, Load;
    var w := Concat(chunks);
    var lines, ends := Reading(w).lines, Charged(chunks);
    InOnePiece(w, limit);
    ChargedIs(chunks);
    forall j | 0 <= j < |lines| && lines[j] != []
      ensures ends[j] - EventStart(lines, ends, j) <= limit
    {
      var b := EventBegins(lines, ends, j);
      var b' := EventBegins(lines, Reading(w).ends, j);
      assert b == b';
      if b >= 0 && CutLine(chunks, b) {
        assert FitsWithLf(chunks, b, limit);
        assert NoBlank(lines, b + 1, j + 1);
      } else {
        assert Reading(w).ends[j] - EventStart(lines, Reading(w).ends, j) <= limit;
      }
    }
  }

  lemma FitsHeld(chunks: seq<Bytes>, limit: nat)
    requires Accepted([Concat(chunks)], limit) && BomFits(chunks, limit) && BlankCutsFit(chunks, limit)
    ensures HeldWithin(chunks, limit)
  {
    hide Feed, Body, Charged, EventStart, Accepted, CutLine, Concat, Held, BlankCutsFit, LinesWithin;
    forall k | 0 < k <= |chunks|
      ensures Held(chunks[..k]) <= limit
    {
      HeldIs(chunks, k);
      if Undecided(Concat(chunks[..k])) {
        InOnePiece(Concat(chunks), limit);
        assert k == |chunks| ==> chunks[..k] == chunks;
      } else {
        BoundaryFits(chunks, k, limit);
      }
    }
  }

  lemma BoundaryFits(chunks: seq<Bytes>, k: nat, limit: nat)
    requires 0 < k <= |chunks| && !Undecided(Concat(chunks[..k]))
    requires Accepted([Concat(chunks)], limit) && BlankCutsFit(chunks, limit)
    ensures LinesOut(chunks, k) <= |Charged(chunks)|
    ensures var start := EventStart(Reading(Concat(chunks)).lines, Charged(chunks), LinesOut(chunks, k));
            |Body(Concat(chunks[..k]))| - start <= limit
  {
    hide Feed, Body, Charged, EventStart, Accepted, CutLine, Concat, Load;
    var v, m := Concat(chunks[..k]), LinesOut(chunks, k);
    var lines, ends, whole := Reading(Concat(chunks)).lines, Charged(chunks), Reading(Concat(chunks)).ends;
    var more := BehindChunks(chunks, k);
    PrefixWithin(v, more, limit);
    ChargedIs(chunks);
    var b := EventBegins(lines, ends, m);
    var b' := EventBegins(lines, whole, m);
    assert b == b';
    if b >= 0 && CutLine(chunks, b) {
      assert FitsWithLf(chunks, b, limit);
    }
  }

  lemma BehindChunks(chunks: seq<Bytes>, k: nat) returns (more: Bytes)
    requires k <= |chunks|
    ensures Concat(chunks) == Concat(chunks[..k]) + more
  {
    if k == |chunks| {
      more := [];
      assert chunks[..k] == chunks;
    } else {
      more := BehindPrefix(chunks, k);
    }
  }

  // ----- a line cut in two

  /** Every line whose CRLF is cut is within the limit with its LF. */
  ghost predicate CutLinesFit(chunks: seq<Bytes>, limit: int) {
    var c := Reading(Concat(chunks));
    |c.lines| == |c.ends| &&
    forall j :: 0 <= j < |c.lines| && c.lines[j] != [] && CutLine(chunks, j) ==>
      c.ends[j] - EventStart(c.lines, c.ends, j) <= limit
  }

  /** Charging lines short never moves the start of an event up. */
  lemma ChargedStart(chunks: seq<Bytes>, j: nat)
    requires j <= |Charged(chunks)| == |Reading(Concat(chunks)).ends|
    ensures EventStart(Reading(Concat(chunks)).lines, Charged(chunks), j) <=
            EventStart(Reading(Concat(chunks)).lines, Reading(Concat(chunks)).ends, j)
  {
    hide Feed, Body, Charged, CutLine, Concat, EventStart;
    var lines, ends := Reading(Concat(chunks)).lines, Reading(Concat(chunks)).ends;
    ChargedIs(chunks);
    var b := EventBegins(lines, Charged(chunks), j);
    var b' := EventBegins(lines, ends, j);
    assert b == b';
  }

  /** What chunks accept, one piece accepts if and only if every line whose CRLF is cut is
      within the limit with the LF that was charged elsewhere. */
  lemma UnderchargedIff(chunks: seq<Bytes>, limit: nat)
    requires Accepted(chunks, limit)
    ensures Accepted([Concat(chunks)], limit) <==> CutLinesFit(chunks, limit)
  {
    hide Feed, Body, Charged, CutLine, Concat, EventStart, Accepted, Load, HeldWithin;
    var w := Concat(chunks);
    var lines, ends, charged := Reading(w).lines, Reading(w).ends, Charged(chunks);
    AcceptedIff(chunks, limit);
    InOnePiece(w, limit);
    if CutLinesFit(chunks, limit) {
      forall j | 0 <= j < |lines| && lines[j] != []
        ensures ends[j] - EventStart(lines, ends, j) <= limit
      {
        ChargedStart(chunks, j);
        assert charged[j] - EventStart(lines, charged, j) <= limit;
      }
      HeldAtTheEnd(chunks, limit);
    }
  }

  lemma HeldAtTheEnd(chunks: seq<Bytes>, limit: nat)
    requires HeldWithin(chunks, limit) && |Charged(chunks)| == |Reading(Concat(chunks)).ends|
    ensures var c := Reading(Concat(chunks)); Load(Concat(chunks), EventStart(c.lines, c.ends, |c.lines|)) <= limit
  {
    hide Feed, Body, Charged, EventStart;
    if chunks != [] {
      assert chunks[..|chunks|] == chunks;
      assert Held(chunks[..|chunks|]) <= limit;
      ChargedStart(chunks, |Charged(chunks)|);
    }
  }

  // ----- the LF that chunking can charge to the wrong event

  const CR_LF_A_B: Bytes := [CR, LF, 97, 98]

  lemma OverchargedReadings()
    ensures Reading([CR]) == Cut([[]], [1], [], true, 1) && !Undecided([CR]) && |Body([CR])| == 1
    ensures Reading(CR_LF_A_B) == Cut([[]], [2], [97, 98], false, 4) && !Undecided(CR_LF_A_B) && |Body(CR_LF_A_B)| == 4
  {
    FeedByte(START, [], CR);
    FeedByte(START, [CR], LF);
    FeedByte(START, [CR, LF], 97);
    FeedByte(START, [CR, LF, 97], 98);
    assert [] + [CR] == [CR] && [CR] + [LF] == [CR, LF] && [CR, LF] + [97] == [CR, LF, 97];
    assert [CR, LF, 97] + [98] == CR_LF_A_B;
    assert Feed(START, [CR]) == Cut([[]], [1], [], true, 1);
    assert Feed(START, [CR, LF]) == Cut([[]], [2], [], false, 2);
    assert Body([CR]) == [CR] && Body(CR_LF_A_B) == CR_LF_A_B;
  }

  /** The CRLF of a blank line cut in two: the LF is charged to the event behind it, and two
      bytes are refused by a limit of two. */
  lemma CutCrLfChargesTheNextEvent()
    ensures !Accepted([[CR], [LF, 97, 98]], 2) && Accepted([CR_LF_A_B], 2) && Concat([[CR], [LF, 97, 98]]) == CR_LF_A_B
  {
    hide Feed, Body, Undecided, Tally;
    var chunks := [[CR], [LF, 97, 98]];
    assert chunks[..1] == [[CR]] && [[CR]][..0] == [] && Concat([[CR]]) == [CR];
    assert [CR] + [LF, 97, 98] == CR_LF_A_B;
    OverchargedReadings();
    TallyNext(0, [], [], [], 1, 2);
    TallyNext(0, [], [], [], 2, 2);
    TallyNone(0, 2);
    TallyNone(1, 2);
    assert Reading([CR]).lines == [] + Reading([CR]).lines && [] + [1] == [1] && [] + [2] == [2];
    OnePush([CR], 2);
    OnePush(CR_LF_A_B, 2);
    FirstPush([CR], 2);
    assert Reading(CR_LF_A_B).lines[1..] == [] && Reading(CR_LF_A_B).ends[1..] == [];
  }
}
