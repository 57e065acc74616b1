/** What the lines of an event stream mean, told from the lines as section 9.2.6 of the WHATWG
    HTML standard does, with comments and retries reported too; and that this is what the
    decoder makes of them. */
module SseMeaning {
  import opened Wrappers
  import opened Lines
  import opened SseDecode
  import Utf8

  // ----- one line

  /** What stands behind a colon is a value, and one space in front of it does not count. */
  ghost predicate IsValue(rest: Bytes, value: Bytes) {
    rest == [32] + value || (rest == value && (value == [] || value[0] != 32))
  }

  /** A name alone, or a name, a colon and a value. */
  ghost predicate IsField(line: Bytes, name: Bytes, value: Bytes) {
    && 58 !in name
    && (|| (line == name && value == [])
        || (name + [58] <= line && IsValue(line[|name| + 1..], value)))
  }

  lemma ValueIs(rest: Bytes, value: Bytes)
    ensures IsValue(rest, value) <==> value == DropSpace(rest)
  {
    if rest != [] && rest[0] == 32 {
      assert rest == [32] + rest[1..];
      assert rest == [32] + value ==> value == rest[1..];
    }
  }

  lemma NameEnds(line: Bytes, name: Bytes, value: Bytes)
    requires IsField(line, name, value)
    ensures |name| == FirstColon(line) && name == line[..FirstColon(line)]
  {
    hide FirstColon;
    var i := FirstColon(line);
    assert name == line[..|name|];
    assert |name| < |line| ==> line[|name|] == (name + [58])[|name|] == 58;
  }

  /** A line is one field, and in one way. */
  lemma FieldIff(line: Bytes, name: Bytes, value: Bytes)
    ensures var i := FirstColon(line);
            IsField(line, name, value) <==>
            name == line[..i] && value == if i < |line| then DropSpace(line[i + 1..]) else []
  {
    hide FirstColon, IsValue, DropSpace;
    var i := FirstColon(line);
    if IsField(line, name, value) {
      NameEnds(line, name, value);
    }
    if i < |line| {
      ValueIs(line[i + 1..], value);
      assert line[..i] + [58] == line[..i + 1];
    } else {
      assert line[..i] == line;
    }
  }

  /** The value of a line that is field `name`. */
  function FieldValue(line: Bytes, name: Bytes): (r: Option<Bytes>)
    ensures r.Some? ==> IsField(line, name, r.value)
    ensures r.None? ==> forall value :: !IsField(line, name, value)
  {
    var i := FirstColon(line);
    var value := if i < |line| then DropSpace(line[i + 1..]) else [];
    FieldIff(line, name, value);
    assert line[..i] != name ==> forall other :: !IsField(line, name, other) by { OtherNames(line, name); }
    if line[..i] == name then Some(value) else None
  }

  lemma OtherNames(line: Bytes, name: Bytes)
    ensures name != line[..FirstColon(line)] ==> forall value :: !IsField(line, name, value)
  {
    forall value | IsField(line, name, value)
      ensures name == line[..FirstColon(line)]
    {
      FieldIff(line, name, value);
    }
  }

  lemma ValueOfField(line: Bytes, name: Bytes, value: Bytes)
    requires IsField(line, name, value)
    ensures FieldValue(line, name) == Some(value)
  {
    FieldIff(line, name, value);
  }

  // ----- what came before line `k`

  /** Where the block of line `k` begins: behind the last blank line before it. */
  function BlockStart(lines: seq<Bytes>, k: nat): (b: nat)
    requires k <= |lines|
    ensures b <= k && (b == 0 || lines[b - 1] == []) && forall j :: b <= j < k ==> lines[j] != []
  {
    if k == 0 || lines[k - 1] == [] then k else BlockStart(lines, k - 1)
  }

  /** The last `name` line from `from` on and before `k`; -1 when there is none. */
  function LastField(lines: seq<Bytes>, from: nat, k: nat, name: Bytes): (i: int)
    requires from <= k <= |lines|
    ensures i == -1 || (from <= i < k && FieldValue(lines[i], name).Some?)
    ensures forall j :: from <= j < k && i < j ==> FieldValue(lines[j], name).None?
  {
    if from == k then -1
    else if FieldValue(lines[k - 1], name).Some? then k - 1
    else LastField(lines, from, k - 1, name)
  }

  /** An `id` line that counts: a NUL in its value makes it none. */
  predicate SetsId(line: Bytes) {
    FieldValue(line, Ascii("id")).Some? && 0 !in FieldValue(line, Ascii("id")).value
  }

  function LastId(lines: seq<Bytes>, k: nat): (i: int)
    requires k <= |lines|
    ensures -1 <= i < k && (i >= 0 ==> SetsId(lines[i]))
    ensures forall j :: i < j < k ==> !SetsId(lines[j])
  {
    if k == 0 then -1 else if SetsId(lines[k - 1]) then k - 1 else LastId(lines, k - 1)
  }

  /** The last `event` since the block began. */
  function TypeAt(lines: seq<Bytes>, k: nat): Option<Bytes>
    requires k <= |lines|
  {
    var i := LastField(lines, BlockStart(lines, k), k, Ascii("event"));
    if i < 0 then None else Some(Utf8.Lossy(FieldValue(lines[i], Ascii("event")).value))
  }

  /** The last `id` that counts, in any block, or the one there was to begin with. */
  function IdAt(lines: seq<Bytes>, k: nat, seed: Option<Bytes>): Option<Bytes>
    requires k <= |lines|
  {
    var i := LastId(lines, k);
    if i < 0 then seed else Some(Utf8.Lossy(FieldValue(lines[i], Ascii("id")).value))
  }

  /** No `event` line since the last blank line: no type. */
  lemma NoEventNoType(lines: seq<Bytes>, b: nat, k: nat)
    requires b <= k <= |lines| && (b == 0 || lines[b - 1] == []) && forall j :: b <= j < k ==> lines[j] != []
    requires forall j :: b <= j < k ==> FieldValue(lines[j], Ascii("event")).None?
    ensures TypeAt(lines, k) == None
  {
    hide FieldValue;
    assert BlockStart(lines, k) == b;
  }

  /** The last `event` line since the last blank line gives the type. */
  lemma LastEventIsType(lines: seq<Bytes>, i: nat, k: nat, value: Bytes)
    requires i < k <= |lines| && IsField(lines[i], Ascii("event"), value) && forall j :: i <= j < k ==> lines[j] != []
    requires forall j :: i < j < k ==> FieldValue(lines[j], Ascii("event")).None?
    ensures TypeAt(lines, k) == Some(Utf8.Lossy(value))
  {
    hide FieldValue, IsField, IsValue;
    ValueOfField(lines[i], Ascii("event"), value);
    var b := BlockStart(lines, k);
    assert b <= i;
    assert LastField(lines, b, k, Ascii("event")) == i;
  }

  /** The last `id` line without a NUL gives the ID, whatever blocks lie between. */
  lemma LastIdIsId(lines: seq<Bytes>, i: nat, k: nat, value: Bytes, seed: Option<Bytes>)
    requires i < k <= |lines| && IsField(lines[i], Ascii("id"), value) && 0 !in value
    requires forall j, v :: i < j < k && IsField(lines[j], Ascii("id"), v) ==> 0 in v
    ensures IdAt(lines, k, seed) == Some(Utf8.Lossy(value))
  {
    FieldIff(lines[i], Ascii("id"), value);
    assert SetsId(lines[i]);
    assert forall j :: i < j < k ==> !SetsId(lines[j]);
  }

  lemma NoIdIsSeed(lines: seq<Bytes>, k: nat, seed: Option<Bytes>)
    requires k <= |lines| && forall j, v :: 0 <= j < k && IsField(lines[j], Ascii("id"), v) ==> 0 in v
    ensures IdAt(lines, k, seed) == seed
  {
    assert forall j :: 0 <= j < k ==> !SetsId(lines[j]);
  }

  /** The values of the `data` lines from `from` on and before `k`, in order. */
  function DataValues(lines: seq<Bytes>, from: nat, k: nat): seq<Bytes>
    requires from <= k <= |lines|
  {
    if from == k then []
    else
      var value := FieldValue(lines[k - 1], Ascii("data"));
      DataValues(lines, from, k - 1) + if value.Some? then [Utf8.Lossy(value.value)] else []
  }

  /** Values with a newline between each two. */
  function Joined(values: seq<Bytes>): Bytes
    requires values != []
  {
    if |values| == 1 then values[0] else Joined(values[..|values| - 1]) + [10] + values[|values| - 1]
  }

  // ----- what line `k` gives

  function EventAt(lines: seq<Bytes>, k: nat, seed: Option<Bytes>): seq<Event>
    requires k < |lines|
  {
    if lines[k] == [] then
      var values := DataValues(lines, BlockStart(lines, k), k);
      if values == [] then [] else [Message(TypeAt(lines, k), Joined(values), IdAt(lines, k, seed))]
    else if lines[k][0] == 58 then
      [Comment(Utf8.Lossy(FieldValue(lines[k], []).value))]
    else
      var retry := FieldValue(lines[k], Ascii("retry"));
      if retry.Some? && IsDecimal(retry.value) then [Retry(Capped(ParseDigits(retry.value)))] else []
  }

  predicate IsDecimal(s: Bytes) {
    s != [] && forall i :: 0 <= i < |s| ==> Ascii("0")[0] <= s[i] <= Ascii("9")[0]
  }

  function Capped(n: int): int {
    if n <= 0xFFFF_FFFF_FFFF_FFFF then n else 0xFFFF_FFFF_FFFF_FFFF
  }

  function Events(lines: seq<Bytes>, k: nat, seed: Option<Bytes>): seq<Event>
    requires k <= |lines|
  {
    if k == 0 then [] else Events(lines, k - 1, seed) + EventAt(lines, k - 1, seed)
  }

  // ----- and that is what the decoder makes of it

  /** Values with a newline behind each. */
  function Terminated(values: seq<Bytes>): Bytes {
    if values == [] then [] else Terminated(values[..|values| - 1]) + values[|values| - 1] + [10]
  }

  lemma {:induction false} TerminatedIsJoined(values: seq<Bytes>)
    requires values != []
    ensures Terminated(values) == Joined(values) + [10]
  {
    if |values| == 1 {
      assert values[..0] == [] && [] + values[0] == values[0];
    } else {
      TerminatedIsJoined(values[..|values| - 1]);
    }
  }

  /** The buffers behind line `k`, told from the lines. */
  function StateAt(lines: seq<Bytes>, k: nat, seed: Option<Bytes>): Fields
    requires k <= |lines|
  {
    Fields(Terminated(DataValues(lines, BlockStart(lines, k), k)), TypeAt(lines, k), IdAt(lines, k, seed),
           Events(lines, k, seed))
  }

  lemma WireNames()
    ensures DATA == Ascii("data") && EVENT == Ascii("event") && ID == Ascii("id") && RETRY == Ascii("retry")
    ensures Ascii("0") == [48] && Ascii("9") == [57]
  {
  }

  lemma TypeNext(lines: seq<Bytes>, k: nat)
    requires k < |lines|
    ensures var event := FieldValue(lines[k], Ascii("event"));
            TypeAt(lines, k + 1) ==
            if lines[k] == [] then None
            else if event.Some? then Some(Utf8.Lossy(event.value))
            else TypeAt(lines, k)
  {
    hide FieldValue;
  }

  lemma IdNext(lines: seq<Bytes>, k: nat, seed: Option<Bytes>)
    requires k < |lines|
    ensures IdAt(lines, k + 1, seed) ==
            if SetsId(lines[k]) then Some(Utf8.Lossy(FieldValue(lines[k], Ascii("id")).value)) else IdAt(lines, k, seed)
  {
    hide FieldValue;
  }

  lemma BlankSetsNoId()
    ensures !SetsId([])
  {
    OtherNames([], Ascii("id"));
  }

  lemma BlankLine(lines: seq<Bytes>, k: nat, seed: Option<Bytes>)
    requires k < |lines| && lines[k] == []
    ensures Dispatch(StateAt(lines, k, seed)) == StateAt(lines, k + 1, seed)
  {
    hide FieldValue, SetsId, TypeAt, IdAt, DataValues, Terminated;
    var values := DataValues(lines, BlockStart(lines, k), k);
    TypeNext(lines, k);
    IdNext(lines, k, seed);
    BlankSetsNoId();
    NoData(lines, k);
    if values != [] {
      TerminatedIsJoined(values);
      var data := Terminated(values);
      assert data[..|data| - 1] == Joined(values);
    }
  }

  lemma NoData(lines: seq<Bytes>, k: nat)
    requires k < |lines| && lines[k] == []
    ensures DataValues(lines, BlockStart(lines, k + 1), k + 1) == [] && Terminated([]) == []
  {
  }

  /** A line that is no blank one: which field it is, and that it is no other. */
  lemma FieldLine(line: Bytes) returns (name: Bytes, value: Bytes)
    requires line != []
    ensures name == line[..FirstColon(line)]
    ensures value == if FirstColon(line) < |line| then DropSpace(line[FirstColon(line) + 1..]) else []
    ensures forall other :: FieldValue(line, other) == if other == name then Some(value) else None
    ensures line[0] == 58 <==> name == []
    ensures line[0] == 58 ==> value == DropSpace(line[1..])
  {
    name := line[..FirstColon(line)];
    value := if FirstColon(line) < |line| then DropSpace(line[FirstColon(line) + 1..]) else [];
  }

  lemma OtherLine(lines: seq<Bytes>, k: nat, seed: Option<Bytes>)
    requires k < |lines| && lines[k] != []
    ensures HandleLine(StateAt(lines, k, seed), lines[k]) == StateAt(lines, k + 1, seed)
  {
    hide FieldValue, FirstColon, DropSpace, ParseDigits, TypeAt, IdAt, DataValues, Terminated, BlockStart;
    var name, value := FieldLine(lines[k]);
    WireNames();
    TypeNext(lines, k);
    IdNext(lines, k, seed);
    assert BlockStart(lines, k + 1) == BlockStart(lines, k) by { SameBlock(lines, k); }
    DataNext(lines, BlockStart(lines, k), k);
    assert Events(lines, k + 1, seed) == Events(lines, k, seed) + EventAt(lines, k, seed);
    DigitsAgree(value);
  }

  lemma SameBlock(lines: seq<Bytes>, k: nat)
    requires k < |lines| && lines[k] != []
    ensures BlockStart(lines, k + 1) == BlockStart(lines, k)
  {
  }

  lemma DigitsAgree(s: Bytes)
    ensures IsDecimal(s) <==> AllDigits(s)
  {
    WireNames();
  }

  lemma DataNext(lines: seq<Bytes>, from: nat, k: nat)
    requires from <= k < |lines|
    ensures var value := FieldValue(lines[k], Ascii("data"));
            Terminated(DataValues(lines, from, k + 1)) ==
            if value.Some? then Terminated(DataValues(lines, from, k)) + Utf8.Lossy(value.value) + [10]
            else Terminated(DataValues(lines, from, k))
  {
    hide FieldValue;
    var value, before := FieldValue(lines[k], Ascii("data")), DataValues(lines, from, k);
    if value.Some? {
      var text := Utf8.Lossy(value.value);
      assert (before + [text])[..|before|] == before;
    } else {
      assert before + [] == before;
    }
  }

  lemma {:induction false} LinesMean(lines: seq<Bytes>, k: nat, seed: Option<Bytes>)
    requires k <= |lines|
    ensures OnLines(Fresh(seed), lines[..k]) == StateAt(lines, k, seed)
  {
    hide StateAt, Dispatch, HandleLine;
    if k == 0 {
      StartMeans(lines, seed);
    } else {
      LinesMean(lines, k - 1, seed);
      assert lines[..k][..k - 1] == lines[..k - 1];
      if lines[k - 1] == [] {
        BlankLine(lines, k - 1, seed);
      } else {
        OtherLine(lines, k - 1, seed);
      }
    }
  }

  lemma StartMeans(lines: seq<Bytes>, seed: Option<Bytes>)
    ensures StateAt(lines, 0, seed) == Fresh(seed) && lines[..0] == []
  {
  }

  /** A stream decodes to what its lines mean: behind each block with data a message, its type
      the last `event` of the block or none, its data the block's `data` values, its ID the
      last `id` so far or the one the decoder was made with; and each comment and retry where
      it stands. */
  lemma DecodeIs(w: Bytes, seed: Option<Bytes>)
    ensures Decode(w, seed) == Events(Split(Body(w)), |Split(Body(w))|, seed)
  {
    hide Split, OnLines;
    var lines := Split(Body(w));
    LinesMean(lines, |lines|, seed);
    assert lines[..|lines|] == lines;
  }
}
