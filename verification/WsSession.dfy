/** The WebSocket session: one loop over three inputs, stdin lines out, messages in. What the
    environment does in each turn of the loop is a `Turn`. */
module WsSession {
  import opened Wrappers

  const NORMAL := 1000

  datatype Frame = Text(line: string) | Close(code: int)

  const GOODBYE := Close(NORMAL)

  datatype Inbound = Ended | Failed | Message(isClose: bool)

  /** `poll_ready`, `start_send` and `poll_flush` in turn, up to the first that fails. */
  datatype Sending = NotReady | NotAccepted | NotFlushed | Sent

  /** What is ready when the loop selects, and how the writes and the send of this turn go.
      `interrupt` is ready on a signal and also once the interrupt channel has closed. */
  datatype Turn = Turn(recv: Option<Inbound>, line: bool, interrupt: bool, written: bool, send: Sending)

  datatype Outcome = Success | WriteFailed | RequestFailed

  datatype Act =
    | Received(isClose: bool)
    | Took(line: string)
    | SawEof
    | Interrupted
    | Handed(frame: Frame)

  /** `taken` counts the stdin lines consumed; `unflushed` says the sink holds a message it
      accepted and has not flushed. */
  datatype State = State(closing: bool, taken: nat, unflushed: bool, trace: seq<Act>, outcome: Option<Outcome>)

  const OPENED := State(false, 0, false, [], None)

  function Did(s: State, a: Act): State {
    s.(trace := s.trace + [a])
  }

  function End(s: State, o: Outcome): State {
    s.(outcome := Some(o))
  }

  function AfterSend(s: State, f: Frame, o: Sending): State {
    if o == NotReady || o == NotAccepted then s
    else Did(s, Handed(f)).(unflushed := o == NotFlushed)
  }

  /** One turn of the loop; what arrived from the peer goes first, and a line is read only
      until a close has been sent or seen. */
  function Step(stdin: seq<string>, verbose: bool, s: State, t: Turn): State
    requires s.taken <= |stdin|
  {
    if t.recv.Some? then
      match t.recv.value
      case Ended => End(s, if t.written then Success else WriteFailed)
      case Failed => End(s, RequestFailed)
      case Message(isClose) =>
        var s' := Did(s, Received(isClose)).(closing := s.closing || isClose);
        if t.written then s' else End(s', WriteFailed)
    else if t.line && !s.closing then
      if s.taken < |stdin| then
        var line := stdin[s.taken];
        var s' := Did(s, Took(line)).(taken := s.taken + 1);
        if verbose && !t.written then End(s', WriteFailed)
        else
          var s'' := AfterSend(s', Text(line), t.send);
          if t.send == Sent then s'' else End(s'', RequestFailed)
      else
        AfterSend(Did(s, SawEof).(closing := true), GOODBYE, t.send)
    else if t.interrupt then
      if s.closing then End(Did(s, Interrupted), if t.written then Success else WriteFailed)
      else AfterSend(Did(s, Interrupted).(closing := true), GOODBYE, t.send)
    else
      s
  }

  function Run(stdin: seq<string>, verbose: bool, turns: seq<Turn>): (s: State)
    ensures s.taken <= |stdin|
  {
    if turns == [] then OPENED
    else
      var s := Run(stdin, verbose, turns[..|turns| - 1]);
      if s.outcome.Some? then s else Step(stdin, verbose, s, turns[|turns| - 1])
  }

  // ----- the loop

  class Session {
    const stdin: seq<string>
    const verbose: bool
    var closing: bool
    var taken: nat
    var unflushed: bool
    var trace: seq<Act>

    constructor (stdin: seq<string>, verbose: bool)
      ensures this.stdin == stdin && this.verbose == verbose && View(None) == OPENED
    {
      this.stdin, this.verbose := stdin, verbose;
      closing, taken, unflushed, trace := false, 0, false, [];
    }

    function View(outcome: Option<Outcome>): State
      reads this
    {
      State(closing, taken, unflushed, trace, outcome)
    }

    method Send(f: Frame, how: Sending) returns (ok: bool)
      modifies this`unflushed, this`trace
      ensures View(None) == AfterSend(old(View(None)), f, how)
      ensures ok <==> how == Sent
      ensures trace == old(trace) + if how in {NotFlushed, Sent} then [Handed(f)] else []
      ensures unflushed == if how in {NotFlushed, Sent} then how == NotFlushed else old(unflushed)
    {
      if how == NotReady || how == NotAccepted {
        return false;
      }
      trace, unflushed := trace + [Handed(f)], true;
      if how == NotFlushed {
        return false;
      }
      unflushed := false;
      ok := true;
    }

    method Goodbye(how: Sending)
      modifies this`unflushed, this`trace
      ensures View(None) == AfterSend(old(View(None)), GOODBYE, how)
    {
      var _ := Send(GOODBYE, how);
    }

    /** The loop over as many turns as the environment gives it. */
    method Serve(turns: seq<Turn>) returns (outcome: Option<Outcome>)
      requires View(None) == OPENED
      modifies this
      ensures View(outcome) == Run(stdin, verbose, turns)
    {
      outcome := None;
      var k := 0;
      while k < |turns| && outcome.None?
        invariant k <= |turns| && View(outcome) == Run(stdin, verbose, turns[..k])
      {
        outcome := TakeTurn(turns[k]);
        k := k + 1;
        assert turns[..k][..k - 1] == turns[..k - 1];
      }
      if outcome.Some? {
        NothingAfterTheEnd(stdin, verbose, turns, k);
      } else {
        assert turns[..k] == turns;
      }
    }

    method TakeTurn(t: Turn) returns (outcome: Option<Outcome>)
      requires taken <= |stdin|
      modifies this
      ensures View(outcome) == Step(stdin, verbose, old(View(None)), t)
    {
      outcome := None;
      if t.recv.Some? {
        match t.recv.value
        case Ended =>
          outcome := Some(if t.written then Success else WriteFailed);
        case Failed =>
          outcome := Some(RequestFailed);
        case Message(isClose) =>
          trace := trace + [Received(isClose)];
          if isClose {
            closing := true;
          }
          if !t.written {
            outcome := Some(WriteFailed);
          }
      } else if t.line && !closing {
        if taken < |stdin| {
          var line := stdin[taken];
          taken, trace := taken + 1, trace + [Took(line)];
          if verbose && !t.written {
            return Some(WriteFailed);
          }
          var ok := Send(Text(line), t.send);
          if !ok {
            outcome := Some(RequestFailed);
          }
        } else {
          trace, closing := trace + [SawEof], true;
          Goodbye(t.send);
        }
      } else if t.interrupt {
        trace := trace + [Interrupted];
        if closing {
          return Some(if t.written then Success else WriteFailed);
        }
        closing := true;
        Goodbye(t.send);
      }
    }
  }

  lemma {:induction false} NothingAfterTheEnd(stdin: seq<string>, verbose: bool, turns: seq<Turn>, k: nat)
    requires k <= |turns| && Run(stdin, verbose, turns[..k]).outcome.Some?
    ensures Run(stdin, verbose, turns) == Run(stdin, verbose, turns[..k])
  {
    if k == |turns| {
      assert turns[..k] == turns;
    } else {
      assert turns[..|turns| - 1][..k] == turns[..k];
      NothingAfterTheEnd(stdin, verbose, turns[..|turns| - 1], k);
    }
  }

  // ----- what goes out

  function Frames(trace: seq<Act>): seq<Frame> {
    if trace == [] then []
    else
      var a := trace[|trace| - 1];
      Frames(trace[..|trace| - 1]) + if a.Handed? then [a.frame] else []
  }

  function Texts(lines: seq<string>): seq<Frame> {
    seq(|lines|, i requires 0 <= i < |lines| => Text(lines[i]))
  }

  function Interrupts(trace: seq<Act>): nat {
    if trace == [] then 0
    else Interrupts(trace[..|trace| - 1]) + if trace[|trace| - 1] == Interrupted then 1 else 0
  }

  /** Nothing is handed to the sink behind the peer's close. */
  ghost predicate SilentAfterPeerClose(trace: seq<Act>) {
    forall i, j :: 0 <= i < j < |trace| && trace[i] == Received(true) ==> !trace[j].Handed?
  }

  /** `n` lines went out in order, then a close if `closed`. */
  ghost predicate SentInOrder(stdin: seq<string>, trace: seq<Act>, n: nat, closed: bool)
    requires n <= |stdin|
  {
    Frames(trace) == Texts(stdin[..n]) + if closed then [GOODBYE] else []
  }

  /** The lines out are those taken, less one that ended the run with an error. */
  ghost predicate Orderly(stdin: seq<string>, s: State, n: nat, closed: bool) {
    && n <= s.taken <= n + 1 && s.taken <= |stdin|
    && SentInOrder(stdin, s.trace, n, closed)
    && (n < s.taken ==> s.outcome.Some? && s.outcome != Some(Success))
    && (closed ==> s.closing)
    && (Received(true) in s.trace ==> s.closing)
    && SilentAfterPeerClose(s.trace)
    && (s.unflushed ==> s.closing || s.outcome == Some(RequestFailed))
    && Interrupts(s.trace) <= (if s.closing then 1 else 0) + (if s.outcome.Some? then 1 else 0)
  }

  lemma Appended(trace: seq<Act>, a: Act)
    ensures Frames(trace + [a]) == Frames(trace) + if a.Handed? then [a.frame] else []
    ensures Interrupts(trace + [a]) == Interrupts(trace) + if a == Interrupted then 1 else 0
    ensures SilentAfterPeerClose(trace) && !(a.Handed? && Received(true) in trace) ==> SilentAfterPeerClose(trace + [a])
    ensures Received(true) in trace + [a] <==> Received(true) in trace || a == Received(true)
    ensures (trace + [a])[|trace|] == a
  {
    hide SilentAfterPeerClose;
    assert (trace + [a])[..|trace|] == trace;
    if SilentAfterPeerClose(trace) && !(a.Handed? && Received(true) in trace) {
      StaysSilent(trace, a);
    }
  }

  lemma StaysSilent(trace: seq<Act>, a: Act)
    requires SilentAfterPeerClose(trace) && !(a.Handed? && Received(true) in trace)
    ensures SilentAfterPeerClose(trace + [a])
  {
    var after := trace + [a];
    forall i, j | 0 <= i < j < |after| && after[i] == Received(true)
      ensures !after[j].Handed?
    {
      assert after[i] == trace[i];
      assert j < |trace| ==> after[j] == trace[j];
    }
  }

  lemma NextText(stdin: seq<string>, n: nat)
    requires n < |stdin|
    ensures Texts(stdin[..n]) + [Text(stdin[n])] == Texts(stdin[..n + 1])
  {
  }

  /** A stdin line: taken, and handed on unless it ends the run. */
  lemma LineTurn(stdin: seq<string>, verbose: bool, s: State, t: Turn, n: nat, closed: bool) returns (n': nat)
    requires Orderly(stdin, s, n, closed) && s.outcome.None?
    requires t.recv.None? && t.line && !s.closing && s.taken < |stdin|
    ensures Orderly(stdin, Step(stdin, verbose, s, t), n', closed)
  {
    hide Frames, Interrupts, SilentAfterPeerClose, Texts;
    var line := stdin[s.taken];
    var s1 := Did(s, Took(line)).(taken := s.taken + 1);
    Appended(s.trace, Took(line));
    n' := n;
    if !(verbose && !t.written) {
      if t.send == NotFlushed || t.send == Sent {
        Appended(s1.trace, Handed(Text(line)));
        NextText(stdin, n);
        n' := n + 1;
        assert Texts(stdin[..n]) + [] == Texts(stdin[..n]) && Texts(stdin[..n']) + [] == Texts(stdin[..n']);
      }
    }
  }

  /** End of input, or a first interrupt: one close goes out, if the sink takes it. */
  lemma GoodbyeTurn(stdin: seq<string>, s: State, a: Act, how: Sending, n: nat) returns (closed: bool)
    requires Orderly(stdin, s, n, false) && s.outcome.None? && !s.closing
    requires a == SawEof || a == Interrupted
    ensures Orderly(stdin, AfterSend(Did(s, a).(closing := true), GOODBYE, how), n, closed)
  {
    hide Frames, Interrupts, SilentAfterPeerClose, Texts;
    var s1 := Did(s, a).(closing := true);
    Appended(s.trace, a);
    Appended(s1.trace, Handed(GOODBYE));
    closed := how == NotFlushed || how == Sent;
    assert Texts(stdin[..n]) + [] == Texts(stdin[..n]);
  }

  lemma StepOrderly(stdin: seq<string>, verbose: bool, s: State, t: Turn, n: nat, closed: bool)
    returns (n': nat, closed': bool)
    requires Orderly(stdin, s, n, closed) && s.outcome.None?
    ensures Orderly(stdin, Step(stdin, verbose, s, t), n', closed')
  {
    n', closed' := n, closed;
    if t.recv.Some? {
      MessageTurn(stdin, verbose, s, t, n, closed);
    } else if t.line && !s.closing {
      if s.taken < |stdin| {
        n' := LineTurn(stdin, verbose, s, t, n, closed);
      } else {
        closed' := GoodbyeTurn(stdin, s, SawEof, t.send, n);
      }
    } else if t.interrupt {
      if s.closing {
        Appended(s.trace, Interrupted);
      } else {
        closed' := GoodbyeTurn(stdin, s, Interrupted, t.send, n);
      }
    }
  }

  lemma MessageTurn(stdin: seq<string>, verbose: bool, s: State, t: Turn, n: nat, closed: bool)
    requires Orderly(stdin, s, n, closed) && s.outcome.None? && t.recv.Some?
    ensures Orderly(stdin, Step(stdin, verbose, s, t), n, closed)
  {
    hide Frames, Interrupts, SilentAfterPeerClose, Texts;
    match t.recv.value
    case Ended =>
    case Failed =>
    case Message(isClose) =>
      Appended(s.trace, Received(isClose));
      assert Frames(s.trace) + [] == Frames(s.trace);
  }

  lemma {:induction false} RunOrderly(stdin: seq<string>, verbose: bool, turns: seq<Turn>)
    returns (n: nat, closed: bool)
    ensures Orderly(stdin, Run(stdin, verbose, turns), n, closed)
  {
    if turns == [] {
      n, closed := 0, false;
      assert Texts(stdin[..0]) == [];
    } else {
      n, closed := RunOrderly(stdin, verbose, turns[..|turns| - 1]);
      var s := Run(stdin, verbose, turns[..|turns| - 1]);
      if s.outcome.None? {
        n, closed := StepOrderly(stdin, verbose, s, turns[|turns| - 1], n, closed);
      }
    }
  }

  // ----- every session

  /** Section 5.5.1 of RFC 6455, whatever the environment does: the frames handed over are a
      prefix of the stdin lines in order and then at most one close, with nothing behind it
      and nothing at all behind the peer's. Every line taken is among them, but for one that
      ended the run with an error. */
  lemma FramesAreAPrefixThenOneClose(stdin: seq<string>, verbose: bool, turns: seq<Turn>) returns (n: nat, closed: bool)
    ensures var s := Run(stdin, verbose, turns);
            && SilentAfterPeerClose(s.trace)
            && n <= s.taken <= n + 1
            && Frames(s.trace) == Texts(stdin[..n]) + (if closed then [Close(1000)] else [])
            && (n < s.taken ==> s.outcome.Some? && s.outcome != Some(Success))
  {
    hide Run, Texts, Frames, Interrupts, SilentAfterPeerClose;
    n, closed := RunOrderly(stdin, verbose, turns);
  }

  /** A turn of a session that is closing hands nothing over, and neither does one in which
      something comes in. */
  lemma NothingHanded(stdin: seq<string>, verbose: bool, s: State, t: Turn)
    requires s.taken <= |stdin| && (s.closing || t.recv.Some?)
    ensures Frames(Step(stdin, verbose, s, t).trace) == Frames(s.trace)
    ensures s.closing || t.recv == Some(Message(true)) ==> Step(stdin, verbose, s, t).closing
  {
    hide Frames, Interrupts, SilentAfterPeerClose;
    forall trace, a
      ensures Frames(trace + [a]) == Frames(trace) + if a.Handed? then [a.frame] else []
    {
      Appended(trace, a);
    }
  }

  /** From the turn in which the peer's close comes in, told from the environment, nothing is
      handed to the sink any more. */
  lemma {:induction false} PeerCloseSilences(stdin: seq<string>, verbose: bool, turns: seq<Turn>, k: nat)
    requires k < |turns| && Run(stdin, verbose, turns[..k]).outcome.None? && turns[k].recv == Some(Message(true))
    ensures Frames(Run(stdin, verbose, turns).trace) == Frames(Run(stdin, verbose, turns[..k]).trace)
    ensures Run(stdin, verbose, turns).closing
  {
    hide Step, Frames;
    var n := |turns| - 1;
    if k < n {
      assert turns[..n][..k] == turns[..k];
      PeerCloseSilences(stdin, verbose, turns[..n], k);
    }
    var s := Run(stdin, verbose, turns[..n]);
    if s.outcome.None? {
      NothingHanded(stdin, verbose, s, turns[n]);
    }
  }

  // ----- how a session ends, told from the environment

  /** Turns in which the loop would read a line. */
  function LineTurns(turns: seq<Turn>): nat {
    if turns == [] then 0
    else
      var t := turns[|turns| - 1];
      LineTurns(turns[..|turns| - 1]) + if t.recv.None? && t.line then 1 else 0
  }

  /** Turn `i` is the peer's close, the end of stdin or an interrupt. */
  predicate Closes(stdin: seq<string>, turns: seq<Turn>, i: nat)
    requires i < |turns|
  {
    var t := turns[i];
    || t.recv == Some(Message(true))
    || (t.recv.None? && if t.line then LineTurns(turns[..i]) >= |stdin| else t.interrupt)
  }

  ghost predicate ClosedBefore(stdin: seq<string>, turns: seq<Turn>, k: nat)
    requires k <= |turns|
  {
    exists i :: 0 <= i < k && Closes(stdin, turns, i)
  }

  ghost predicate Reached(stdin: seq<string>, verbose: bool, turns: seq<Turn>, k: nat) {
    k < |turns| && Run(stdin, verbose, turns[..k]).outcome.None?
  }

  /** At turn `k` the peer's side fails, or a line read before any close cannot be sent. */
  ghost predicate FailsAt(stdin: seq<string>, verbose: bool, turns: seq<Turn>, k: nat)
    requires k < |turns|
  {
    var t := turns[k];
    || t.recv == Some(Failed)
    || (&& t.recv.None? && t.line && !ClosedBefore(stdin, turns, k) && LineTurns(turns[..k]) < |stdin|
        && (verbose ==> t.written) && t.send != Sent)
  }

  /** Turn `k` is the peer's end, or an interrupt once something has closed the session. */
  ghost predicate LeavesAt(stdin: seq<string>, turns: seq<Turn>, k: nat)
    requires k < |turns|
  {
    turns[k].recv == Some(Ended) || (turns[k].recv.None? && turns[k].interrupt && ClosedBefore(stdin, turns, k))
  }

  /** Turn `k` writes: at the end, a message that came in, or, if verbose, a line on its way out. */
  ghost predicate WritesAt(stdin: seq<string>, verbose: bool, turns: seq<Turn>, k: nat)
    requires k < |turns|
  {
    || LeavesAt(stdin, turns, k)
    || (turns[k].recv.Some? && turns[k].recv.value.Message?)
    || (&& verbose && turns[k].recv.None? && turns[k].line
        && !ClosedBefore(stdin, turns, k) && LineTurns(turns[..k]) < |stdin|)
  }

  ghost predicate EndsAt(stdin: seq<string>, verbose: bool, turns: seq<Turn>, k: nat, o: Outcome)
    requires k < |turns|
  {
    match o
    case Success => LeavesAt(stdin, turns, k) && turns[k].written
    case WriteFailed => WritesAt(stdin, verbose, turns, k) && !turns[k].written
    case RequestFailed => FailsAt(stdin, verbose, turns, k)
  }

  /** While it runs, a session is closing once something closed it, and has until then taken
      one line in each turn that reads one. */
  lemma {:induction false} ClosingIff(stdin: seq<string>, verbose: bool, turns: seq<Turn>)
    requires Run(stdin, verbose, turns).outcome.None?
    ensures var s := Run(stdin, verbose, turns);
            && (s.closing <==> ClosedBefore(stdin, turns, |turns|))
            && (!s.closing ==> s.taken == LineTurns(turns))
  {
    if turns != [] {
      var n := |turns| - 1;
      hide Step;
      ClosingIff(stdin, verbose, turns[..n]);
      StepClosing(stdin, verbose, Run(stdin, verbose, turns[..n]), turns[n]);
      ClosedPrefix(stdin, turns, n, n);
      assert ClosedBefore(stdin, turns, |turns|) <==> ClosedBefore(stdin, turns, n) || Closes(stdin, turns, n);
    }
  }

  lemma StepClosing(stdin: seq<string>, verbose: bool, s: State, t: Turn)
    requires s.taken <= |stdin| && s.outcome.None? && Step(stdin, verbose, s, t).outcome.None?
    ensures var s' := Step(stdin, verbose, s, t);
            && (s.closing ==> s'.closing)
            && (!s.closing ==>
                  && (s'.closing <==> t.recv == Some(Message(true)) ||
                                      (t.recv.None? && if t.line then s.taken == |stdin| else t.interrupt))
                  && (!s'.closing ==> s'.taken == s.taken + if t.recv.None? && t.line then 1 else 0))
  {
  }

  lemma ClosedPrefix(stdin: seq<string>, turns: seq<Turn>, n: nat, k: nat)
    requires k <= n <= |turns|
    ensures ClosedBefore(stdin, turns[..n], k) <==> ClosedBefore(stdin, turns, k)
  {
    forall i | 0 <= i < k
      ensures Closes(stdin, turns[..n], i) <==> Closes(stdin, turns, i)
    {
      assert turns[..n][..i] == turns[..i];
    }
  }

  /** The turn the run comes to ends it as it would end any run that comes to it. */
  lemma EndsHere(stdin: seq<string>, verbose: bool, turns: seq<Turn>, n: nat, o: Outcome)
    requires |turns| == n + 1 && Run(stdin, verbose, turns[..n]).outcome.None?
    ensures Run(stdin, verbose, turns).outcome == Some(o) <==> EndsAt(stdin, verbose, turns, n, o)
  {
    hide LineTurns, Closes;
    ClosingIff(stdin, verbose, turns[..n]);
    ClosedPrefix(stdin, turns, n, n);
  }

  /** How a run ends, told from the environment: as the one reached turn that ends it does. */
  lemma {:induction false} OutcomeIff(stdin: seq<string>, verbose: bool, turns: seq<Turn>, o: Outcome)
    ensures Run(stdin, verbose, turns).outcome == Some(o) <==>
            exists k: nat :: Reached(stdin, verbose, turns, k) && EndsAt(stdin, verbose, turns, k, o)
  {
    if turns != [] {
      hide EndsAt;
      var n := |turns| - 1;
      OutcomeIff(stdin, verbose, turns[..n], o);
      forall k: nat | k < n
        ensures Reached(stdin, verbose, turns[..n], k) <==> Reached(stdin, verbose, turns, k)
        ensures EndsAt(stdin, verbose, turns[..n], k, o) <==> EndsAt(stdin, verbose, turns, k, o)
      {
        EndsInPrefix(stdin, verbose, turns, n, k, o);
      }
      if Run(stdin, verbose, turns[..n]).outcome.None? {
        EndsHere(stdin, verbose, turns, n, o);
        assert Reached(stdin, verbose, turns, n);
      }
    }
  }

  lemma EndsInPrefix(stdin: seq<string>, verbose: bool, turns: seq<Turn>, n: nat, k: nat, o: Outcome)
    requires k < n <= |turns|
    ensures Reached(stdin, verbose, turns[..n], k) <==> Reached(stdin, verbose, turns, k)
    ensures EndsAt(stdin, verbose, turns[..n], k, o) <==> EndsAt(stdin, verbose, turns, k, o)
  {
    hide Run, LineTurns;
    assert turns[..n][..k] == turns[..k];
    ClosedPrefix(stdin, turns, n, k);
  }

  /** Only a flush that failed leaves a message accepted and unflushed. */
  lemma {:induction false} BusyOnlyIfNotFlushed(stdin: seq<string>, verbose: bool, turns: seq<Turn>) returns (k: nat)
    requires Run(stdin, verbose, turns).unflushed
    ensures Reached(stdin, verbose, turns, k) && turns[k].send == NotFlushed
  {
    var n := |turns| - 1;
    if Run(stdin, verbose, turns[..n]).unflushed {
      k := BusyOnlyIfNotFlushed(stdin, verbose, turns[..n]);
      assert turns[..n][..k] == turns[..k];
    } else {
      k := n;
    }
  }

  /** The interrupt arm fires at turn `k`: nothing came in, and no line is read. */
  ghost predicate FiresAt(stdin: seq<string>, turns: seq<Turn>, k: nat)
    requires k < |turns|
  {
    turns[k].recv.None? && turns[k].interrupt && (turns[k].line ==> ClosedBefore(stdin, turns, k))
  }

  ghost function Fired(stdin: seq<string>, verbose: bool, turns: seq<Turn>): nat {
    if turns == [] then 0
    else
      var n := |turns| - 1;
      Fired(stdin, verbose, turns[..n]) +
      if Reached(stdin, verbose, turns, n) && FiresAt(stdin, turns, n) then 1 else 0
  }

  /** The interrupts consumed are the reached turns at which their arm fired. */
  lemma {:induction false} InterruptsAreFired(stdin: seq<string>, verbose: bool, turns: seq<Turn>)
    ensures Interrupts(Run(stdin, verbose, turns).trace) == Fired(stdin, verbose, turns)
  {
    if turns != [] {
      hide Interrupts, Closes, LineTurns;
      var n := |turns| - 1;
      InterruptsAreFired(stdin, verbose, turns[..n]);
      var s, t := Run(stdin, verbose, turns[..n]), turns[n];
      if s.outcome.None? {
        ClosingIff(stdin, verbose, turns[..n]);
        ClosedPrefix(stdin, turns, n, n);
        StepInterrupts(stdin, verbose, s, t);
      }
    }
  }

  lemma StepInterrupts(stdin: seq<string>, verbose: bool, s: State, t: Turn)
    requires s.taken <= |stdin|
    ensures Interrupts(Step(stdin, verbose, s, t).trace) ==
            Interrupts(s.trace) + if t.recv.None? && t.interrupt && (t.line ==> s.closing) then 1 else 0
  {
    hide Interrupts, SilentAfterPeerClose, Frames;
    forall trace, a
      ensures Interrupts(trace + [a]) == Interrupts(trace) + if a == Interrupted then 1 else 0
    {
      Appended(trace, a);
    }
  }

  /** A session succeeds if and only if it reached the peer's end, or an interrupt after a close,
      and could write what was left. It fails to write if and only if it reached a turn that
      writes and could not, and fails as a request if and only if it reached one that could not
      receive, or not send a line it had read. It goes on if and only if it reached no such
      turn. It consumes at most two interrupts, the second of which ends it. A message is left
      accepted and unflushed only by a flush that failed, and in a session that has not failed
      only if it is the goodbye. */
  lemma SessionEnds(stdin: seq<string>, verbose: bool, turns: seq<Turn>)
    ensures var s := Run(stdin, verbose, turns);
            && (s.outcome == Some(Success) <==>
                  exists k: nat :: Reached(stdin, verbose, turns, k) && LeavesAt(stdin, turns, k) && turns[k].written)
            && (s.outcome == Some(WriteFailed) <==>
                  exists k: nat ::
                    Reached(stdin, verbose, turns, k) && WritesAt(stdin, verbose, turns, k) && !turns[k].written)
            && (s.outcome == Some(RequestFailed) <==>
                  exists k: nat :: Reached(stdin, verbose, turns, k) && FailsAt(stdin, verbose, turns, k))
            && (s.outcome == None <==>
                  forall k: nat, o :: Reached(stdin, verbose, turns, k) ==> !EndsAt(stdin, verbose, turns, k, o))
            && Fired(stdin, verbose, turns) <= 2
            && (Fired(stdin, verbose, turns) == 2 ==> s.outcome.Some?)
            && (s.unflushed ==> exists k: nat :: Reached(stdin, verbose, turns, k) && turns[k].send == NotFlushed)
            && (s.unflushed && s.outcome != Some(RequestFailed) ==> s.closing)
  {
    hide Run, Texts, Frames, Interrupts, SilentAfterPeerClose, LeavesAt, WritesAt, FailsAt;
    var n, closed := RunOrderly(stdin, verbose, turns);
    InterruptsAreFired(stdin, verbose, turns);
    forall o
      ensures Run(stdin, verbose, turns).outcome == Some(o) <==>
              exists k: nat :: Reached(stdin, verbose, turns, k) && EndsAt(stdin, verbose, turns, k, o)
    {
      OutcomeIff(stdin, verbose, turns, o);
    }
    SplitOutcomes(stdin, verbose, turns);
    if Run(stdin, verbose, turns).unflushed {
      var k := BusyOnlyIfNotFlushed(stdin, verbose, turns);
    }
  }

  lemma SplitOutcomes(stdin: seq<string>, verbose: bool, turns: seq<Turn>)
    ensures (exists k: nat :: Reached(stdin, verbose, turns, k) && EndsAt(stdin, verbose, turns, k, Success)) <==>
            exists k: nat :: Reached(stdin, verbose, turns, k) && LeavesAt(stdin, turns, k) && turns[k].written
    ensures (exists k: nat :: Reached(stdin, verbose, turns, k) && EndsAt(stdin, verbose, turns, k, WriteFailed)) <==>
            exists k: nat ::
              Reached(stdin, verbose, turns, k) && WritesAt(stdin, verbose, turns, k) && !turns[k].written
    ensures (exists k: nat :: Reached(stdin, verbose, turns, k) && EndsAt(stdin, verbose, turns, k, RequestFailed)) <==>
            exists k: nat :: Reached(stdin, verbose, turns, k) && FailsAt(stdin, verbose, turns, k)
  {
    hide Run, LeavesAt, WritesAt, FailsAt;
  }

  // ----- the goodbye decides nothing

  /** In this state this turn sends the goodbye. */
  predicate SaysGoodbye(stdin: seq<string>, s: State, t: Turn) {
    && s.outcome.None? && !s.closing && t.recv.None?
    && ((t.line && s.taken == |stdin|) || (!t.line && t.interrupt))
  }

  /** Two environments that differ only in how the sink takes a goodbye. */
  ghost predicate DifferInGoodbyes(stdin: seq<string>, verbose: bool, turns: seq<Turn>, turns': seq<Turn>) {
    && |turns| == |turns'|
    && forall k :: 0 <= k < |turns| ==>
         || turns[k] == turns'[k]
         || (&& SaysGoodbye(stdin, Run(stdin, verbose, turns[..k]), turns[k])
             && turns'[k] == turns[k].(send := turns'[k].send))
  }

  /** Refused, half sent or delivered, a goodbye never changes what the run returns, which
      lines it takes or when it stops. */
  lemma {:induction false} GoodbyeDecidesNothing(stdin: seq<string>, verbose: bool, turns: seq<Turn>, turns': seq<Turn>)
    requires DifferInGoodbyes(stdin, verbose, turns, turns')
    ensures var s, s' := Run(stdin, verbose, turns), Run(stdin, verbose, turns');
            SameCourse(s, s')
  {
    hide Step;
    if turns != [] {
      var n := |turns| - 1;
      assert DifferInGoodbyes(stdin, verbose, turns[..n], turns'[..n]) by {
        forall k | 0 <= k < n && turns[..n][k] != turns'[..n][k]
          ensures SaysGoodbye(stdin, Run(stdin, verbose, turns[..n][..k]), turns[..n][k]) &&
                  turns'[..n][k] == turns[..n][k].(send := turns'[..n][k].send)
        {
          assert turns[..n][..k] == turns[..k] && turns[k] != turns'[k];
        }
      }
      GoodbyeDecidesNothing(stdin, verbose, turns[..n], turns'[..n]);
      assert turns[n] == turns'[n] || SaysGoodbye(stdin, Run(stdin, verbose, turns[..n]), turns[n]);
      SameStep(stdin, verbose, Run(stdin, verbose, turns[..n]), Run(stdin, verbose, turns'[..n]), turns[n], turns'[n]);
    }
  }

  /** The part of a state that decides how a run goes on. */
  ghost predicate SameCourse(s: State, s': State) {
    s.outcome == s'.outcome && s.taken == s'.taken && s.closing == s'.closing
  }

  lemma SameStep(stdin: seq<string>, verbose: bool, s: State, s': State, t: Turn, t': Turn)
    requires SameCourse(s, s') && s.taken <= |stdin|
    requires t == t' || (SaysGoodbye(stdin, s, t) && t' == t.(send := t'.send))
    ensures SameCourse(Step(stdin, verbose, s, t), Step(stdin, verbose, s', t'))
  {
    if t == t' {
      SameTurn(stdin, verbose, s, s', t);
    } else {
      hide Frames;
      assert AfterSend(Did(s, SawEof).(closing := true), GOODBYE, t.send).outcome == s.outcome;
    }
  }

  lemma SameTurn(stdin: seq<string>, verbose: bool, s: State, s': State, t: Turn)
    requires SameCourse(s, s') && s.taken <= |stdin|
    ensures SameCourse(Step(stdin, verbose, s, t), Step(stdin, verbose, s', t))
  {
  }
}
