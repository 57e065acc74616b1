/** The annotated printing of SSE events, which is the wire format again. */
module SsePrint {
  import opened Wrappers
  import opened Lines
  import opened SseDecode
  import opened Output
  import Utf8

  datatype Verbosity = Payload | Annotated | Verbose

  const SEPARATOR: Bytes := [COLON, SPACE]

  /** A whole number in decimal. */
  function Decimal(n: nat): Bytes {
    if n < 10 then [(48 + n) as Byte] else Decimal(n / 10) + [(48 + n % 10) as Byte]
  }

  function FirstNewline(s: Bytes): (p: nat)
    ensures p <= |s| && LF !in s[..p]
    ensures p < |s| ==> s[p] == LF
  {
    FirstWhere(s, b => b == LF)
  }

  /** `data` between its newlines, the text behind the last one included. */
  function Pieces(data: Bytes): (r: seq<Bytes>)
    decreases |data|
  {
    var p := FirstNewline(data);
    if p == |data| then [data] else [data[..p]] + Pieces(data[p + 1..])
  }

  /** Each line and its newline. */
  function Join(lines: seq<Bytes>): Bytes {
    if lines == [] then [] else Join(lines[..|lines| - 1]) + lines[|lines| - 1] + [LF]
  }

  function Field(name: Bytes, value: Bytes): Bytes {
    name + SEPARATOR + value
  }

  function DataLines(pieces: seq<Bytes>): seq<Bytes> {
    seq(|pieces|, i requires 0 <= i < |pieces| => Field(DATA, pieces[i]))
  }

  function OptionalField(name: Bytes, value: Option<Bytes>): seq<Bytes> {
    if value.Some? then [Field(name, value.value)] else []
  }

  /** The lines of an event in its own syntax. */
  function EventLines(e: Event): seq<Bytes>
    requires e.Retry? ==> e.millis >= 0
  {
    match e
    case Message(event, data, id) =>
      OptionalField(EVENT, event) + OptionalField(ID, id) + DataLines(Pieces(data)) + [[]]
    case Comment(text) => [Field([], text)]
    case Retry(millis) => [Field(RETRY, Decimal(millis))]
  }

  function EventText(e: Event, how: Verbosity): Bytes
    requires e.Retry? ==> e.millis >= 0
  {
    if how == Payload then
      if e.Message? then e.data + [LF] else []
    else
      Join(EventLines(e))
  }

  /** The payload form is a message's data and nothing else; the others are the wire's own
      lines, type before ID before data. */
  lemma EventTextIs(e: Event, how: Verbosity)
    requires e.Retry? ==> e.millis >= 0
    ensures how == Payload ==> EventText(e, how) == if e.Message? then e.data + [10] else []
    ensures how != Payload && e.Comment? ==> EventText(e, how) == Ascii(": ") + e.text + [10]
    ensures how != Payload && e.Retry? ==> EventText(e, how) == Ascii("retry: ") + Decimal(e.millis) + [10]
    ensures how != Payload && e.Message? ==>
              EventText(e, how) ==
              (if e.event.Some? then Ascii("event: ") + e.event.value + [10] else []) +
              ((if e.id.Some? then Ascii("id: ") + e.id.value + [10] else []) +
               (Join(DataLines(Pieces(e.data))) + [10]))
  {
    hide Pieces, Decimal;
    assert Ascii(": ") == [] + SEPARATOR && Ascii("retry: ") == RETRY + SEPARATOR;
    assert Ascii("event: ") == EVENT + SEPARATOR && Ascii("id: ") == ID + SEPARATOR;
    if how != Payload {
      match e
      case Message(event, data, id) =>
        MessageText(event, Pieces(data), id);
      case Comment(text) =>
        JoinOne(Field([], text));
      case Retry(millis) =>
        JoinOne(Field(RETRY, Decimal(millis)));
    }
  }

  lemma MessageText(event: Option<Bytes>, pieces: seq<Bytes>, id: Option<Bytes>)
    ensures Join(OptionalField(EVENT, event) + OptionalField(ID, id) + DataLines(pieces) + [[]]) ==
            Join(OptionalField(EVENT, event)) + (Join(OptionalField(ID, id)) + (Join(DataLines(pieces)) + [10]))
    ensures Join(OptionalField(EVENT, event)) ==
            if event.Some? then EVENT + SEPARATOR + event.value + [10] else []
    ensures Join(OptionalField(ID, id)) == if id.Some? then ID + SEPARATOR + id.value + [10] else []
  {
    hide Join, DataLines;
    var a, b, c := OptionalField(EVENT, event), OptionalField(ID, id), DataLines(pieces);
    JoinAppend(a + b + c, [[]]);
    JoinAppend(a + b, c);
    JoinAppend(a, b);
    JoinOne([]);
    JoinNothing();
    if event.Some? {
      JoinOne(Field(EVENT, event.value));
    }
    if id.Some? {
      JoinOne(Field(ID, id.value));
    }
  }

  lemma JoinNothing()
    ensures Join([]) == []
  {
  }

  lemma DataLineIs(pieces: seq<Bytes>, i: nat)
    requires i < |pieces|
    ensures |DataLines(pieces)| == |pieces| && DataLines(pieces)[i] == Ascii("data: ") + pieces[i]
  {
    assert Ascii("data: ") == DATA + SEPARATOR;
  }

  method WriteLine(out: Sink<Byte>, line: Bytes)
    modifies out
    ensures out.written == old(out.written) + line + [LF]
  {
    out.Write(line);
    out.Write([LF]);
  }

  lemma {:induction false} JoinAppend(a: seq<Bytes>, b: seq<Bytes>)
    ensures Join(a + b) == Join(a) + Join(b)
  {
    if b == [] {
      assert a + b == a;
    } else {
      var n := |b| - 1;
      assert (a + b)[..|a + b| - 1] == a + b[..n];
      JoinAppend(a, b[..n]);
    }
  }

  lemma JoinOne(line: Bytes)
    ensures Join([line]) == line + [LF]
  {
    assert [line][..0] == [];
    assert Join([]) + line + [LF] == line + [LF];
  }

  method PrintEvent(out: Sink<Byte>, e: Event, how: Verbosity)
    requires e.Retry? ==> e.millis >= 0
    modifies out
    ensures out.written == old(out.written) + EventText(e, how)
  {
    hide Join, Pieces;
    match e
    case Message(event, data, id) =>
      if how == Payload {
        WriteLine(out, data);
      } else {
        PrintMessage(out, event, data, id);
      }
    case Comment(text) =>
      if how != Payload {
        WriteLine(out, Field([], text));
        JoinOne(Field([], text));
      }
    case Retry(millis) =>
      if how != Payload {
        WriteLine(out, Field(RETRY, Decimal(millis)));
        JoinOne(Field(RETRY, Decimal(millis)));
      }
  }

  method PrintMessage(out: Sink<Byte>, event: Option<Bytes>, data: Bytes, id: Option<Bytes>)
    modifies out
    ensures out.written == old(out.written) + Join(EventLines(Message(event, data, id)))
  {
    hide Join, Pieces, OptionalField;
    ghost var before, pieces := out.written, DataLines(Pieces(data));
    ghost var head := OptionalField(EVENT, event) + OptionalField(ID, id);
    PrintOptional(out, EVENT, event);
    PrintOptional(out, ID, id);
    JoinAppend(OptionalField(EVENT, event), OptionalField(ID, id));
    assert out.written == before + Join(head);
    PrintData(out, Pieces(data));
    JoinAppend(head, pieces);
    assert out.written == before + Join(head + pieces);
    WriteLine(out, []);
    JoinOne([]);
    JoinAppend(head + pieces, [[]]);
    assert out.written == before + (Join(head + pieces) + [LF]);
  }

  method PrintOptional(out: Sink<Byte>, name: Bytes, value: Option<Bytes>)
    modifies out
    ensures out.written == old(out.written) + Join(OptionalField(name, value))
  {
    if value.Some? {
      WriteLine(out, Field(name, value.value));
      JoinOne(Field(name, value.value));
    }
  }

  method PrintData(out: Sink<Byte>, pieces: seq<Bytes>)
    modifies out
    ensures out.written == old(out.written) + Join(DataLines(pieces))
  {
    for i := 0 to |pieces|
      invariant out.written == old(out.written) + Join(DataLines(pieces[..i]))
    {
      hide Join, DataLines, Field;
      NextDataLine(pieces, i);
      WriteLine(out, Field(DATA, pieces[i]));
    }
    assert pieces[..|pieces|] == pieces;
  }

  lemma NextDataLine(pieces: seq<Bytes>, i: nat)
    requires i < |pieces|
    ensures Join(DataLines(pieces[..i + 1])) == Join(DataLines(pieces[..i])) + Field(DATA, pieces[i]) + [LF]
  {
    var lines, line := DataLines(pieces[..i]), Field(DATA, pieces[i]);
    assert DataLines(pieces[..i + 1]) == lines + [line];
    assert (lines + [line])[..i] == lines;
  }

  // ----- what prints back

  function PrintAll(events: seq<Event>): Bytes
    requires forall e :: e in events && e.Retry? ==> e.millis >= 0
  {
    Join(AllLines(events))
  }

  function AllLines(events: seq<Event>): seq<Bytes>
    requires forall e :: e in events && e.Retry? ==> e.millis >= 0
  {
    if events == [] then []
    else AllLines(events[..|events| - 1]) + EventLines(events[|events| - 1])
  }

  /** A stream printed event by event. */
  method PrintEvents(out: Sink<Byte>, events: seq<Event>, how: Verbosity)
    requires !how.Payload? && forall e :: e in events && e.Retry? ==> e.millis >= 0
    modifies out
    ensures out.written == old(out.written) + PrintAll(events)
  {
    hide Join, AllLines, EventLines;
    NothingPrinted();
    assert events[..0] == [];
    for i := 0 to |events|
      invariant out.written == old(out.written) + PrintAll(events[..i])
    {
      PrintNext(events, i);
      PrintEvent(out, events[i], how);
    }
    assert events[..|events|] == events;
  }

  lemma NothingPrinted()
    ensures PrintAll([]) == []
  {
  }

  lemma PrintNext(events: seq<Event>, i: nat)
    requires i < |events| && forall e :: e in events && e.Retry? ==> e.millis >= 0
    ensures PrintAll(events[..i + 1]) == PrintAll(events[..i]) + Join(EventLines(events[i]))
  {
    hide Join, EventLines;
    assert events[..i + 1][..i] == events[..i];
    JoinAppend(AllLines(events[..i]), EventLines(events[i]));
  }

  predicate CleanLine(s: Bytes) {
    OneLine(s) && Utf8.Valid(s)
  }

  /** Text, and with no CR: its newlines are the printer's to split at. */
  predicate CleanData(s: Bytes) {
    Utf8.Valid(s) && CR !in s
  }

  predicate CleanId(id: Option<Bytes>) {
    id.Some? ==> CleanLine(id.value) && NUL !in id.value
  }

  predicate Clean(e: Event) {
    match e
    case Message(event, data, id) =>
      (event.Some? ==> CleanLine(event.value)) && CleanData(data) && CleanId(id)
    case Comment(text) => CleanLine(text)
    case Retry(millis) => 0 <= millis <= MAX_U64
  }

  /** The ID in force behind these events. */
  function LastId(events: seq<Event>): Option<Bytes> {
    if events == [] then None
    else
      var e := events[|events| - 1];
      if e.Message? && e.id.Some? then e.id else LastId(events[..|events| - 1])
  }

  /** Clean events whose IDs behave as an ID in force does: once there is one, there is one. */
  predicate Printable(events: seq<Event>) {
    events == [] ||
    var before, e := events[..|events| - 1], events[|events| - 1];
    && Printable(before) && Clean(e)
    && (e.Message? && e.id.None? ==> LastId(before).None?)
  }

  lemma {:induction false} PrintableMillis(events: seq<Event>)
    requires Printable(events)
    ensures forall e :: e in events && e.Retry? ==> e.millis >= 0
  {
    if events != [] {
      PrintableMillis(events[..|events| - 1]);
    }
  }

  // ----- lines survive

  lemma FirstEndOf(line: Bytes, rest: Bytes)
    requires OneLine(line)
    ensures FirstEnd(line + [LF] + rest) == |line|
  {
    hide FirstEnd;
    var s := line + [LF] + rest;
    assert s[|line|] == LF && s[..|line|] == line;
  }

  lemma JoinFront(lines: seq<Bytes>)
    requires lines != []
    ensures Join(lines) == lines[0] + [LF] + Join(lines[1..])
  {
    assert lines == [lines[0]] + lines[1..];
    JoinAppend([lines[0]], lines[1..]);
    JoinOne(lines[0]);
  }

  lemma {:induction false} SplitJoin(lines: seq<Bytes>)
    requires forall l :: l in lines ==> OneLine(l)
    ensures Split(Join(lines)) == lines
    decreases |lines|
  {
    if lines == [] {
      assert FirstEnd([]) == 0;
    } else {
      JoinFront(lines);
      var s, rest := Join(lines), Join(lines[1..]);
      FirstEndOf(lines[0], rest);
      assert s[..|lines[0]|] == lines[0] && s[|lines[0]| + 1..] == rest;
      SplitJoin(lines[1..]);
    }
  }

  // ----- fields survive

  lemma FirstColonOf(name: Bytes, rest: Bytes)
    requires COLON !in name
    ensures FirstColon(name + [COLON] + rest) == |name|
  {
    hide FirstColon;
    var s := name + [COLON] + rest;
    assert s[|name|] == COLON && s[..|name|] == name;
  }

  lemma FieldHandled(f: Fields, name: Bytes, value: Bytes)
    requires name != [] && COLON !in name
    ensures HandleLine(f, Field(name, value)) == HandleField(f, name, value)
  {
    var line := Field(name, value);
    assert line == name + [COLON] + ([SPACE] + value);
    FirstColonOf(name, [SPACE] + value);
    assert line[..|name|] == name && line[|name| + 1..] == [SPACE] + value;
    assert ([SPACE] + value)[1..] == value;
  }

  lemma CommentHandled(f: Fields, text: Bytes)
    requires Utf8.Valid(text)
    ensures HandleLine(f, Field([], text)) == f.(queued := f.queued + [Comment(text)])
  {
    var line := Field([], text);
    assert line[1..] == [SPACE] + text && ([SPACE] + text)[1..] == text;
    Utf8.ValidIsKept(text);
  }

  lemma {:induction false} DecimalParses(n: nat)
    ensures AllDigits(Decimal(n)) && ParseDigits(Decimal(n)) == n
  {
    if n >= 10 {
      DecimalParses(n / 10);
      var s := Decimal(n);
      assert s[..|s| - 1] == Decimal(n / 10);
    } else {
      assert Decimal(n)[..0] == [];
    }
  }

  lemma {:induction false} PiecesJoin(data: Bytes)
    ensures Join(Pieces(data)) == data + [LF]
    decreases |data|
  {
    hide Join, FirstNewline;
    var p := FirstNewline(data);
    if p == |data| {
      JoinOne(data);
    } else {
      var first, rest := data[..p], data[p + 1..];
      PiecesJoin(rest);
      JoinAppend([first], Pieces(rest));
      JoinOne(first);
      assert data == first + [LF] + rest;
    }
  }

  lemma {:induction false} PiecesClean(data: Bytes)
    requires CleanData(data)
    ensures forall p :: p in Pieces(data) ==> CleanLine(p)
    decreases |data|
  {
    var p := FirstNewline(data);
    if p == |data| {
      assert data[..p] == data;
    } else {
      Utf8.ValidAroundAscii(data, p);
      assert CR !in data[p + 1..] && CR !in data[..p];
      PiecesClean(data[p + 1..]);
    }
  }

  lemma DataLineHandled(f: Fields, piece: Bytes)
    requires Utf8.Valid(piece)
    ensures OnLine(f, Field(DATA, piece)) == f.(data := f.data + piece + [LF])
  {
    FieldHandled(f, DATA, piece);
    Utf8.ValidIsKept(piece);
  }

  lemma {:induction false} DataLinesHandled(f: Fields, pieces: seq<Bytes>)
    requires forall p :: p in pieces ==> Utf8.Valid(p)
    ensures OnLines(f, DataLines(pieces)) == f.(data := f.data + Join(pieces))
  {
    hide OnLine;
    if pieces == [] {
      assert f.data + [] == f.data;
    } else {
      var n := |pieces| - 1;
      var lines := DataLines(pieces);
      assert lines[..n] == DataLines(pieces[..n]);
      DataLinesHandled(f, pieces[..n]);
      DataLineHandled(OnLines(f, lines[..n]), pieces[n]);
      assert f.data + Join(pieces[..n]) + pieces[n] + [LF] == f.data + (Join(pieces[..n]) + pieces[n] + [LF]);
    }
  }

  lemma OptionalHandled(f: Fields, name: Bytes, value: Option<Bytes>)
    requires name == EVENT || name == ID
    requires value.Some? ==> Utf8.Valid(value.value) && (name == ID ==> NUL !in value.value)
    ensures OnLines(f, OptionalField(name, value)) ==
            if value.None? then f else if name == EVENT then f.(eventType := value) else f.(lastId := value)
  {
    if value.Some? {
      FieldHandled(f, name, value.value);
      Utf8.ValidIsKept(value.value);
      OnLinesNext(f, [], Field(name, value.value));
      assert [] + [Field(name, value.value)] == OptionalField(name, value);
    }
  }

  // ----- events survive

  /** Between two events nothing is pending. */
  function Resting(id: Option<Bytes>, queued: seq<Event>): Fields {
    Fields([], None, id, queued)
  }

  lemma MessageHandled(id0: Option<Bytes>, queued: seq<Event>, event: Option<Bytes>, data: Bytes, id: Option<Bytes>)
    requires Clean(Message(event, data, id)) && (id.None? ==> id0.None?)
    ensures OnLines(Resting(id0, queued), EventLines(Message(event, data, id))) ==
            Resting(id, queued + [Message(event, data, id)])
  {
    hide Join, Pieces, OnLine, OnLines, OptionalField;
    var f := Resting(id0, queued);
    var a, b, c := OptionalField(EVENT, event), OptionalField(ID, id), DataLines(Pieces(data));
    OnLinesAppend(f, a + b + c, [[]]);
    OnLinesAppend(f, a + b, c);
    OnLinesAppend(f, a, b);
    OptionalHandled(f, EVENT, event);
    var f1 := OnLines(f, a);
    OptionalHandled(f1, ID, id);
    var f2 := OnLines(f1, b);
    PiecesClean(data);
    DataLinesHandled(f2, Pieces(data));
    PiecesJoin(data);
    var f3 := Fields(data + [LF], event, id, queued);
    assert [] + (data + [LF]) == data + [LF];
    assert OnLines(f2, c) == f3;
    Dispatched(f3, data);
  }

  lemma Dispatched(f: Fields, data: Bytes)
    requires f.data == data + [LF]
    ensures OnLines(f, [[]]) == Resting(f.lastId, f.queued + [Message(f.eventType, data, f.lastId)])
  {
    var blank: seq<Bytes> := [[]];
    OnLinesNext(f, [], []);
    assert [] + blank == blank;
    assert (data + [LF])[..|data|] == data;
  }

  lemma EventHandled(id: Option<Bytes>, queued: seq<Event>, e: Event)
    requires Clean(e) && (e.Message? && e.id.None? ==> id.None?)
    ensures OnLines(Resting(id, queued), EventLines(e)) ==
            Resting(if e.Message? then e.id else id, queued + [e])
  {
    var f := Resting(id, queued);
    match e
    case Message(event, data, id') =>
      MessageHandled(id, queued, event, data, id');
    case Comment(text) =>
      CommentHandled(f, text);
      OnLinesNext(f, [], Field([], text));
      assert [] + EventLines(e) == EventLines(e);
    case Retry(millis) =>
      DecimalParses(millis);
      FieldHandled(f, RETRY, Decimal(millis));
      OnLinesNext(f, [], Field(RETRY, Decimal(millis)));
      assert [] + EventLines(e) == EventLines(e);
  }

  lemma {:induction false} EventsHandled(events: seq<Event>)
    requires Printable(events) && forall e :: e in events && e.Retry? ==> e.millis >= 0
    ensures OnLines(Fresh(None), AllLines(events)) == Resting(LastId(events), events)
  {
    hide OnLine, EventLines;
    if events != [] {
      var n := |events| - 1;
      EventsHandled(events[..n]);
      OnLinesAppend(Fresh(None), AllLines(events[..n]), EventLines(events[n]));
      EventHandled(LastId(events[..n]), events[..n], events[n]);
      assert events[..n] + [events[n]] == events;
    }
  }

  lemma FieldIsLine(name: Bytes, value: Bytes)
    requires OneLine(name) && OneLine(value)
    ensures OneLine(Field(name, value)) && Field(name, value) != []
    ensures Field(name, value)[0] == if name == [] then COLON else name[0]
  {
  }

  lemma DataLinesAreLines(data: Bytes)
    requires CleanData(data)
    ensures Pieces(data) != [] && forall l :: l in DataLines(Pieces(data)) ==> OneLine(l) && l != [] && l[0] == DATA[0]
  {
    hide Pieces, Utf8.Valid, Field;
    PiecesClean(data);
    var pieces := Pieces(data);
    assert pieces != [] by { PiecesJoin(data); }
    forall l | l in DataLines(pieces)
      ensures OneLine(l) && l != [] && l[0] == DATA[0]
    {
      var i :| 0 <= i < |pieces| && l == Field(DATA, pieces[i]);
      assert CleanLine(pieces[i]);
      FieldIsLine(DATA, pieces[i]);
    }
  }

  lemma DecimalIsLine(n: nat)
    ensures OneLine(Decimal(n))
  {
    DecimalParses(n);
    assert forall i :: 0 <= i < |Decimal(n)| ==> IsDigit(Decimal(n)[i]);
  }

  lemma EventLinesAreLines(e: Event)
    requires Clean(e)
    ensures forall l :: l in EventLines(e) ==> OneLine(l)
    ensures EventLines(e) != [] && EventLines(e)[0] != [] && EventLines(e)[0][0] != BOM[0]
  {
    hide Pieces, Utf8.Valid, Field, DataLines, Decimal;
    match e
    case Message(event, data, id) =>
      DataLinesAreLines(data);
      OptionalIsLine(EVENT, event);
      OptionalIsLine(ID, id);
      MessageBegins(event, data, id);
    case Comment(text) =>
      FieldIsLine([], text);
    case Retry(millis) =>
      DecimalIsLine(millis);
      FieldIsLine(RETRY, Decimal(millis));
  }

  lemma OptionalIsLine(name: Bytes, value: Option<Bytes>)
    requires OneLine(name) && name != [] && (value.Some? ==> OneLine(value.value))
    ensures forall l :: l in OptionalField(name, value) ==> OneLine(l) && l != [] && l[0] == name[0]
  {
    hide Field;
    if value.Some? {
      FieldIsLine(name, value.value);
    }
  }

  /** A message begins with whichever of its lines comes first. */
  lemma MessageBegins(event: Option<Bytes>, data: Bytes, id: Option<Bytes>)
    requires Pieces(data) != []
    ensures var lines := EventLines(Message(event, data, id));
            lines != [] && (lines[0] in OptionalField(EVENT, event) || lines[0] in OptionalField(ID, id) ||
                            lines[0] in DataLines(Pieces(data)))
  {
    hide Pieces, Field;
    var data' := DataLines(Pieces(data));
    assert data'[0] in data';
  }

  lemma {:induction false} AllLinesAreLines(events: seq<Event>)
    requires Printable(events) && forall e :: e in events && e.Retry? ==> e.millis >= 0
    ensures forall l :: l in AllLines(events) ==> OneLine(l)
    ensures events != [] ==> AllLines(events) != [] && AllLines(events)[0] != [] && AllLines(events)[0][0] != BOM[0]
  {
    hide EventLines;
    if events != [] {
      var n := |events| - 1;
      AllLinesAreLines(events[..n]);
      EventLinesAreLines(events[n]);
    }
  }

  /** Printed events decode to themselves. */
  lemma PrintedDecodes(events: seq<Event>)
    requires Printable(events)
    requires forall e :: e in events && e.Retry? ==> e.millis >= 0
    ensures Decode(PrintAll(events), None) == events
  {
    hide OnLines, Split, EventLines;
    var lines := AllLines(events);
    AllLinesAreLines(events);
    EventsHandled(events);
    SplitJoin(lines);
    if events != [] {
      JoinFront(lines);
      assert PrintAll(events)[0] == lines[0][0];
    }
    assert Body(PrintAll(events)) == PrintAll(events);
  }

  // ----- only such events are ever decoded

  /** Clean, unless it carries the ID the decoder was made with. */
  predicate CleanBut(e: Event, seed: Option<Bytes>) {
    Clean(e) || (e.Message? && e.id == seed && Clean(e.(id := None)))
  }

  predicate PrintableBut(events: seq<Event>, seed: Option<Bytes>) {
    events == [] ||
    var before, e := events[..|events| - 1], events[|events| - 1];
    && PrintableBut(before, seed) && CleanBut(e, seed)
    && (e.Message? && e.id.None? ==> LastId(before).None?)
  }

  /** No message is sent under this ID. */
  predicate Unused(events: seq<Event>, id: Option<Bytes>) {
    forall e :: e in events && e.Message? ==> e.id != id
  }

  lemma {:induction false} PrintableButIff(events: seq<Event>, seed: Option<Bytes>)
    requires PrintableBut(events, seed)
    ensures Printable(events) <==> CleanId(seed) || Unused(events, seed)
    ensures forall e :: e in events && e.Retry? ==> e.millis >= 0
  {
    if events != [] {
      var n := |events| - 1;
      PrintableButIff(events[..n], seed);
      assert events == events[..n] + [events[n]];
    }
  }

  /** What the decoder's buffers can hold. */
  ghost predicate Decoded(f: Fields, seed: Option<Bytes>) {
    && PrintableBut(f.queued, seed)
    && (LastId(f.queued).Some? ==> f.lastId.Some?)
    && (CleanId(f.lastId) || f.lastId == seed)
    && (f.eventType.Some? ==> CleanLine(f.eventType.value))
    && CleanData(f.data) && (f.data != [] ==> f.data[|f.data| - 1] == LF)
  }

  lemma LossyLine(s: Bytes)
    requires OneLine(s)
    ensures CleanLine(Utf8.Lossy(s)) && CR !in Utf8.Lossy(s)
    ensures NUL !in s ==> NUL !in Utf8.Lossy(s)
  {
    hide Utf8.Lossy, Utf8.Valid;
    Utf8.LossyIsValid(s);
    if LF in Utf8.Lossy(s) {
      Utf8.LossyAddsNoAscii(s, LF);
    }
    if CR in Utf8.Lossy(s) {
      Utf8.LossyAddsNoAscii(s, CR);
    }
    if NUL in Utf8.Lossy(s) {
      Utf8.LossyAddsNoAscii(s, NUL);
    }
  }

  lemma Queued(f: Fields, e: Event, seed: Option<Bytes>)
    requires Decoded(f, seed) && Clean(e) && !e.Message?
    ensures Decoded(f.(queued := f.queued + [e]), seed)
  {
    assert (f.queued + [e])[..|f.queued|] == f.queued;
  }

  lemma FieldKeepsDecoded(f: Fields, name: Bytes, value: Bytes, seed: Option<Bytes>)
    requires Decoded(f, seed) && OneLine(value)
    ensures Decoded(HandleField(f, name, value), seed)
  {
    LossyLine(value);
    if name == DATA {
      var text := Utf8.Lossy(value);
      Utf8.ValidAppend(f.data, text);
      assert Utf8.CharLen([LF]) == 1 && [LF][1..] == [];
      Utf8.ValidAppend(f.data + text, [LF]);
    } else if name == RETRY && name != EVENT && name != ID && AllDigits(value) {
      var n := ParseDigits(value);
      Queued(f, Retry(if n <= MAX_U64 then n else MAX_U64), seed);
    }
  }

  lemma LineKeepsDecoded(f: Fields, line: Bytes, seed: Option<Bytes>)
    requires Decoded(f, seed) && OneLine(line)
    ensures Decoded(OnLine(f, line), seed)
  {
    if line == [] {
      DispatchKeepsDecoded(f, seed);
    } else if line[0] == COLON {
      var text := DropSpace(line[1..]);
      LossyLine(text);
      Queued(f, Comment(Utf8.Lossy(text)), seed);
    } else {
      var i := FirstColon(line);
      var value := if i < |line| then DropSpace(line[i + 1..]) else [];
      assert OneLine(value);
      FieldKeepsDecoded(f, line[..i], value, seed);
    }
  }

  lemma LessNewlineIsClean(data: Bytes, n: nat)
    requires CleanData(data) && |data| == n + 1 && data[n] == LF
    ensures CleanData(data[..n])
  {
    hide Utf8.Valid;
    Utf8.ValidAroundAscii(data, n);
  }

  lemma MessageQueued(f: Fields, e: Event, seed: Option<Bytes>)
    requires Decoded(f, seed) && e.Message? && e.event == f.eventType && e.id == f.lastId && CleanData(e.data)
    ensures Decoded(Fields([], None, f.lastId, f.queued + [e]), seed)
  {
    hide Utf8.Valid;
    assert (f.queued + [e])[..|f.queued|] == f.queued;
    NothingIsClean();
  }

  lemma NothingIsClean()
    ensures CleanData([])
  {
  }

  lemma DispatchKeepsDecoded(f: Fields, seed: Option<Bytes>)
    requires Decoded(f, seed)
    ensures Decoded(Dispatch(f), seed)
  {
    if f.data != [] {
      var n := |f.data| - 1;
      LessNewlineIsClean(f.data, n);
      MessageQueued(f, Message(f.eventType, f.data[..n], f.lastId), seed);
    }
  }

  lemma {:induction false} LinesKeepDecoded(f: Fields, lines: seq<Bytes>, seed: Option<Bytes>)
    requires Decoded(f, seed) && forall l :: l in lines ==> OneLine(l)
    ensures Decoded(OnLines(f, lines), seed)
  {
    hide OnLine;
    if lines != [] {
      LinesKeepDecoded(f, lines[..|lines| - 1], seed);
      LineKeepsDecoded(OnLines(f, lines[..|lines| - 1]), lines[|lines| - 1], seed);
    }
  }

  /** Whatever bytes arrive, malformed UTF-8 included, the events decoded are printable, unless
      one of them carries an ID that the decoder was made with and no stream could have set. */
  lemma DecodedIsPrintable(w: Bytes, lastId: Option<Bytes>)
    ensures Printable(Decode(w, lastId)) <==> CleanId(lastId) || Unused(Decode(w, lastId), lastId)
    ensures forall e :: e in Decode(w, lastId) && e.Retry? ==> e.millis >= 0
  {
    hide Split, Printable, PrintableBut, Unused;
    SplitGivesLines(Body(w));
    NothingDecoded(lastId);
    LinesKeepDecoded(Fresh(lastId), Split(Body(w)), lastId);
    PrintableButIff(Decode(w, lastId), lastId);
  }

  lemma NothingDecoded(seed: Option<Bytes>)
    ensures Decoded(Fresh(seed), seed)
  {
  }

  /** Exactly the printable lists of events come back as themselves. */
  lemma PrintedDecodesIff(events: seq<Event>)
    requires forall e :: e in events && e.Retry? ==> e.millis >= 0
    ensures Decode(PrintAll(events), None) == events <==> Printable(events)
  {
    hide Decode;
    DecodedIsPrintable(PrintAll(events), None);
    if Printable(events) {
      PrintedDecodes(events);
    }
  }

  /** The annotated output of any stream decodes to the events of that stream, whatever event
      ID the connection began with, but for an ID with a line end or NUL in it that a message
      still carries. */
  lemma PrintingPreservesMeaning(w: Bytes, lastId: Option<Bytes>)
    ensures forall e :: e in Decode(w, lastId) && e.Retry? ==> e.millis >= 0
    ensures Decode(PrintAll(Decode(w, lastId)), None) == Decode(w, lastId) <==>
            CleanId(lastId) || Unused(Decode(w, lastId), lastId)
  {
    hide Decode, Printable;
    DecodedIsPrintable(w, lastId);
    PrintedDecodesIff(Decode(w, lastId));
  }
}
