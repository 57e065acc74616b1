/** The SSE decoder: lines become events, and the bytes of one event are bounded. */
module SseDecode {
  import opened Wrappers
  import opened Lines
  import Utf8

  const COLON: Byte := 58
  const SPACE: Byte := 32
  const NUL: Byte := 0
  const DATA: Bytes := [100, 97, 116, 97]
  const EVENT: Bytes := [101, 118, 101, 110, 116]
  const ID: Bytes := [105, 100]
  const RETRY: Bytes := [114, 101, 116, 114, 121]

  datatype Event =
    | Message(event: Option<Bytes>, data: Bytes, id: Option<Bytes>)
    | Comment(text: Bytes)
    | Retry(millis: int)

  /** The decoder's buffers, and every event queued so far. */
  datatype Fields = Fields(data: Bytes, eventType: Option<Bytes>, lastId: Option<Bytes>, queued: seq<Event>)

  function Fresh(lastId: Option<Bytes>): Fields {
    Fields([], None, lastId, [])
  }

  // ----- one line

  function FirstColon(s: Bytes): (p: nat)
    ensures p <= |s| && COLON !in s[..p]
    ensures p < |s| ==> s[p] == COLON
  {
    FirstWhere(s, b => b == COLON)
  }

  /** Exactly one leading space goes. */
  function DropSpace(s: Bytes): Bytes {
    if s != [] && s[0] == SPACE then s[1..] else s
  }

  predicate IsDigit(b: Byte) {
    48 <= b <= 57
  }

  predicate AllDigits(s: Bytes) {
    s != [] && forall i :: 0 <= i < |s| ==> IsDigit(s[i])
  }

  function ParseDigits(s: Bytes): (n: int)
    requires forall i :: 0 <= i < |s| ==> IsDigit(s[i])
    ensures n >= 0
  {
    if s == [] then 0
    else
      assert IsDigit(s[|s| - 1]);
      10 * ParseDigits(s[..|s| - 1]) + (s[|s| - 1] as int - 48)
  }

  function HandleField(f: Fields, name: Bytes, value: Bytes): Fields {
    if name == DATA then
      f.(data := f.data + Utf8.Lossy(value) + [LF])
    else if name == EVENT then
      f.(eventType := Some(Utf8.Lossy(value)))
    else if name == ID then
      if NUL in value then f else f.(lastId := Some(Utf8.Lossy(value)))
    else if name == RETRY && AllDigits(value) then
      var n := ParseDigits(value);
      f.(queued := f.queued + [Retry(if n <= MAX_U64 then n else MAX_U64)])
    else
      f
  }

  function HandleLine(f: Fields, line: Bytes): Fields
    requires line != []
  {
    if line[0] == COLON then
      f.(queued := f.queued + [Comment(Utf8.Lossy(DropSpace(line[1..])))])
    else
      var i := FirstColon(line);
      HandleField(f, line[..i], if i < |line| then DropSpace(line[i + 1..]) else [])
  }

  function DropNewline(data: Bytes): Bytes {
    if data != [] && data[|data| - 1] == LF then data[..|data| - 1] else data
  }

  function Dispatch(f: Fields): Fields {
    if f.data == [] then
      f.(eventType := None)
    else
      Fields([], None, f.lastId, f.queued + [Message(f.eventType, DropNewline(f.data), f.lastId)])
  }

  function OnLine(f: Fields, line: Bytes): Fields {
    if line == [] then Dispatch(f) else HandleLine(f, line)
  }

  function OnLines(f: Fields, lines: seq<Bytes>): Fields {
    if lines == [] then f else OnLine(OnLines(f, lines[..|lines| - 1]), lines[|lines| - 1])
  }

  lemma OnLinesNext(f: Fields, lines: seq<Bytes>, line: Bytes)
    ensures OnLines(f, lines + [line]) == OnLine(OnLines(f, lines), line)
  {
    assert (lines + [line])[..|lines|] == lines;
  }

  lemma {:induction false} OnLinesAppend(f: Fields, a: seq<Bytes>, b: seq<Bytes>)
    ensures OnLines(f, a + b) == OnLines(OnLines(f, a), b)
  {
    if b == [] {
      assert a + b == a;
    } else {
      var n := |b| - 1;
      OnLinesAppend(f, a, b[..n]);
      assert (a + b)[..|a + b| - 1] == a + b[..n];
    }
  }

  /** What a whole stream decodes to, starting from a known last event ID. */
  function Decode(w: Bytes, lastId: Option<Bytes>): seq<Event> {
    OnLines(Fresh(lastId), Split(Body(w))).queued
  }
}
