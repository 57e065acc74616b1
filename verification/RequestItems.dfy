/** The request-item grammar: `name:value`, `name==value`, `name:=value`, `name=value`,
    `name@path`, over the bytes of the argument. */
module RequestItems {
  import opened Wrappers
  import Utf8

  datatype Item =
    | Header(name: Bytes, value: Bytes)
    | Query(name: Bytes, value: Bytes)
    | JsonRaw(name: Bytes, value: Bytes)
    | Data(name: Bytes, value: Bytes)
    | File(name: Bytes, value: Bytes)

  datatype Reason = NoSeparator | EmptyName | BadJson(why: string) | LooksLikeAUrl

  datatype ItemError = ItemError(arg: Bytes, reason: Reason)

  const EQ: Byte := 61
  const COLON: Byte := 58
  const AT: Byte := 64
  const SLASHES: Bytes := [47, 47]
  const HTTP: Bytes := [104, 116, 116, 112]
  const HTTPS: Bytes := [104, 116, 116, 112, 115]

  predicate IsMark(b: Byte) {
    b == EQ || b == COLON || b == AT
  }

  datatype Sep = ColonEq | EqEq | Eq | Colon | At

  function Spelling(sep: Sep): Bytes {
    match sep
    case ColonEq => [COLON, EQ]
    case EqEq => [EQ, EQ]
    case Eq => [EQ]
    case Colon => [COLON]
    case At => [AT]
  }

  /** The separator at position `i`, the longer one preferred. */
  function SepAt(arg: Bytes, i: nat): (sep: Option<Sep>)
    requires i < |arg|
    ensures sep.Some? <==> IsMark(arg[i])
    ensures sep.Some? ==> i + |Spelling(sep.value)| <= |arg| && arg[i..i + |Spelling(sep.value)|] == Spelling(sep.value)
  {
    if i + 1 < |arg| && arg[i] == COLON && arg[i + 1] == EQ then Some(ColonEq)
    else if i + 1 < |arg| && arg[i] == EQ && arg[i + 1] == EQ then Some(EqEq)
    else if arg[i] == EQ then Some(Eq)
    else if arg[i] == COLON then Some(Colon)
    else if arg[i] == AT then Some(At)
    else None
  }

  function FirstMark(arg: Bytes): (p: nat)
    ensures p <= |arg| && forall i :: 0 <= i < p ==> !IsMark(arg[i])
    ensures p < |arg| ==> IsMark(arg[p])
  {
    FirstWhere(arg, IsMark)
  }

  function Classify(arg: Bytes, name: Bytes, sep: Sep, value: Bytes, check: Bytes -> Option<string>)
    : Result<Item, ItemError>
  {
    match sep
    case ColonEq =>
      if check(value).Some? then Err(ItemError(arg, BadJson(check(value).value))) else Ok(JsonRaw(name, value))
    case EqEq => Ok(Query(name, value))
    case Eq => Ok(Data(name, value))
    case Colon =>
      if SLASHES <= value && (name == HTTP || name == HTTPS) then Err(ItemError(arg, LooksLikeAUrl))
      else Ok(Header(name, value))
    case At => Ok(File(name, value))
  }

  /** The earliest separator decides, at its position the longest. `check` answers why a text
      is not JSON. */
  function Parsed(arg: Bytes, check: Bytes -> Option<string>): Result<Item, ItemError> {
    var at := FirstMark(arg);
    if at == |arg| then Err(ItemError(arg, NoSeparator))
    else if at == 0 then Err(ItemError(arg, EmptyName))
    else
      var sep := SepAt(arg, at).value;
      Classify(arg, arg[..at], sep, arg[at + |Spelling(sep)|..], check)
  }

  method ParseItem(arg: Bytes, check: Bytes -> Option<string>) returns (r: Result<Item, ItemError>)
    ensures r == Parsed(arg, check)
  {
    var found: Option<(nat, Sep)> := None;
    var i := 0;
    while i < |arg|
      invariant i <= |arg| && forall j :: 0 <= j < i ==> !IsMark(arg[j])
      invariant found.None?
    {
      var sep := SepAt(arg, i);
      if sep.Some? {
        found := Some((i, sep.value));
        break;
      }
      i := i + 1;
    }
    assert i == FirstMark(arg);
    if found.None? {
      return Err(ItemError(arg, NoSeparator));
    }
    var (at, sep) := found.value;
    var name := arg[..at];
    if name == [] {
      return Err(ItemError(arg, EmptyName));
    }
    r := Classify(arg, name, sep, arg[at + |Spelling(sep)|..], check);
  }

  // ----- printing an item

  function SepOf(item: Item): Sep {
    match item
    case Header(_, _) => Colon
    case Query(_, _) => EqEq
    case JsonRaw(_, _) => ColonEq
    case Data(_, _) => Eq
    case File(_, _) => At
  }

  function Printed(item: Item): Bytes {
    item.name + (Spelling(SepOf(item)) + item.value)
  }

  /** An accepted argument is its item's name, separator and value, and nothing else. */
  lemma AcceptedIsExact(arg: Bytes, check: Bytes -> Option<string>)
    requires Parsed(arg, check).Ok?
    ensures var item := Parsed(arg, check).value;
            && arg == Printed(item) && |item.name| == FirstMark(arg)
            && SepAt(arg, FirstMark(arg)) == Some(SepOf(item))
  {
    hide FirstMark, SepAt, Spelling;
    var at := FirstMark(arg);
    var sep := Spelling(SepAt(arg, at).value);
    assert arg == arg[..at] + (arg[at..at + |sep|] + arg[at + |sep|..]);
  }

  /** The value would make the separator read longer than it is. */
  predicate Lengthens(item: Item) {
    (item.Data? || item.Header?) && item.value != [] && item.value[0] == EQ
  }

  /** Which items an argument can spell. */
  predicate Spellable(item: Item, check: Bytes -> Option<string>) {
    && item.name != [] && (forall i :: 0 <= i < |item.name| ==> !IsMark(item.name[i]))
    && !Lengthens(item)
    && (item.Header? ==> !(SLASHES <= item.value && (item.name == HTTP || item.name == HTTPS)))
    && (item.JsonRaw? ==> check(item.value).None?)
  }

  lemma FirstMarkOf(name: Bytes, rest: Bytes)
    requires (forall i :: 0 <= i < |name| ==> !IsMark(name[i])) && rest != [] && IsMark(rest[0])
    ensures FirstMark(name + rest) == |name|
  {
    hide FirstMark;
    var arg := name + rest;
    assert arg[|name|] == rest[0] && forall i :: 0 <= i < |name| ==> arg[i] == name[i];
  }

  lemma SpelledSeparator(item: Item)
    ensures Spelling(SepOf(item)) != [] && IsMark(Spelling(SepOf(item))[0])
    ensures SepAt(Printed(item), |item.name|) == Some(SepOf(item)) <==> !Lengthens(item)
  {
    var arg, at, sep := Printed(item), |item.name|, Spelling(SepOf(item));
    assert arg[at] == sep[0];
    if |sep| == 2 {
      assert arg[at + 1] == sep[1];
    } else if item.value != [] {
      assert arg[at + 1] == item.value[0];
    }
  }

  lemma SpellableParses(item: Item, check: Bytes -> Option<string>)
    requires Spellable(item, check)
    ensures Parsed(Printed(item), check) == Ok(item)
  {
    hide FirstMark, SepAt, Spelling, IsMark;
    var arg, at, sep := Printed(item), |item.name|, Spelling(SepOf(item));
    SpelledSeparator(item);
    FirstMarkOf(item.name, sep + item.value);
    assert arg[..at] == item.name;
    assert arg[at + |sep|..] == item.value;
  }

  /** Printing and parsing again gives the item back exactly for the spellable ones. */
  lemma ReparsesIff(item: Item, check: Bytes -> Option<string>)
    ensures Parsed(Printed(item), check) == Ok(item) <==> Spellable(item, check)
  {
    if Spellable(item, check) {
      SpellableParses(item, check);
    }
    if Parsed(Printed(item), check) == Ok(item) {
      hide SepAt, Spelling, IsMark;
      AcceptedIsExact(Printed(item), check);
      SpelledSeparator(item);
      forall i | 0 <= i < |item.name|
        ensures !IsMark(item.name[i])
      {
        assert item.name[i] == Printed(item)[i];
      }
    }
  }

  /** The accepted arguments are exactly the printed forms of the spellable items. */
  lemma AcceptedIff(arg: Bytes, check: Bytes -> Option<string>)
    ensures Parsed(arg, check).Ok? <==> exists item :: Spellable(item, check) && arg == Printed(item)
  {
    hide Parsed, Spellable, Printed;
    if Parsed(arg, check).Ok? {
      var item := Parsed(arg, check).value;
      AcceptedIsExact(arg, check);
      ReparsesIff(item, check);
    }
    if item :| Spellable(item, check) && arg == Printed(item) {
      SpellableParses(item, check);
    }
  }

  /** Of a valid UTF-8 argument, both sides of the separator are valid, so neither slice ever
      falls inside a character. */
  lemma SlicesAreText(arg: Bytes)
    requires Utf8.Valid(arg) && FirstMark(arg) < |arg|
    ensures var at := FirstMark(arg);
            Utf8.Valid(arg[..at]) && Utf8.Valid(arg[at + |Spelling(SepAt(arg, at).value)|..])
  {
    hide Utf8.Valid;
    var at := FirstMark(arg);
    Utf8.ValidAroundAscii(arg, at);
    if |Spelling(SepAt(arg, at).value)| == 2 {
      Utf8.ValidAroundAscii(arg, at + 1);
    }
  }

  /** Refused for want of a separator if and only if there is none. */
  lemma NoSeparatorIff(arg: Bytes, check: Bytes -> Option<string>)
    ensures Parsed(arg, check) == Err(ItemError(arg, NoSeparator)) <==>
            forall i :: 0 <= i < |arg| ==> arg[i] !in Ascii("=:@")
  {
    Marks();
    var at := FirstMark(arg);
    assert at < |arg| ==> arg[at] in Ascii("=:@");
  }

  lemma Marks()
    ensures forall b: Byte :: IsMark(b) <==> b in Ascii("=:@")
  {
    assert Ascii("=:@") == [61, 58, 64];
  }

  /** Refused for want of a name if and only if a separator stands in front. */
  lemma EmptyNameIff(arg: Bytes, check: Bytes -> Option<string>)
    ensures Parsed(arg, check) == Err(ItemError(arg, EmptyName)) <==> arg != [] && arg[0] in Ascii("=:@")
  {
    Marks();
  }

  /** Refused as a URL if and only if it begins as one. */
  lemma UrlIff(arg: Bytes, check: Bytes -> Option<string>)
    ensures Parsed(arg, check) == Err(ItemError(arg, LooksLikeAUrl)) <==>
            Ascii("http://") <= arg || Ascii("https://") <= arg
  {
    hide Parsed;
    Schemes();
    if Parsed(arg, check) == Err(ItemError(arg, LooksLikeAUrl)) {
      RefusedBeginsAsUrl(arg, check);
    }
    if HTTP + [COLON] + SLASHES <= arg {
      UrlIsRefused(arg, HTTP, check);
    }
    if HTTPS + [COLON] + SLASHES <= arg {
      UrlIsRefused(arg, HTTPS, check);
    }
  }

  lemma Schemes()
    ensures Ascii("http://") == HTTP + [COLON] + SLASHES && Ascii("https://") == HTTPS + [COLON] + SLASHES
  {
  }

  lemma RefusedBeginsAsUrl(arg: Bytes, check: Bytes -> Option<string>)
    requires Parsed(arg, check) == Err(ItemError(arg, LooksLikeAUrl))
    ensures HTTP + [COLON] + SLASHES <= arg || HTTPS + [COLON] + SLASHES <= arg
  {
    var at := FirstMark(arg);
    var name, value := arg[..at], arg[at + 1..];
    assert SepAt(arg, at) == Some(Colon) && SLASHES <= value;
    BeginsWith(arg, at, name);
  }

  lemma BeginsWith(arg: Bytes, at: nat, name: Bytes)
    requires at < |arg| && name == arg[..at] && arg[at] == COLON && SLASHES <= arg[at + 1..]
    ensures name + [COLON] + SLASHES <= arg
  {
    assert arg[at + 1..][0] == 47 && arg[at + 1..][1] == 47;
    assert name + [COLON] + SLASHES == arg[..at + 3];
  }

  lemma UrlIsRefused(arg: Bytes, scheme: Bytes, check: Bytes -> Option<string>)
    requires (scheme == HTTP || scheme == HTTPS) && scheme + [COLON] + SLASHES <= arg
    ensures Parsed(arg, check) == Err(ItemError(arg, LooksLikeAUrl))
  {
    hide FirstMark, SepAt;
    UrlParses(arg, scheme);
  }

  lemma UrlParses(arg: Bytes, scheme: Bytes)
    requires (scheme == HTTP || scheme == HTTPS) && scheme + [COLON] + SLASHES <= arg
    ensures var at := |scheme|;
            at + 3 <= |arg| && FirstMark(arg) == at && SepAt(arg, at) == Some(Colon)
            && arg[..at] == scheme && SLASHES <= arg[at + 1..]
  {
    var at := |scheme|;
    var rest := arg[at..];
    assert arg == scheme + rest && rest[0] == COLON && rest[1] == 47;
    FirstMarkOf(scheme, rest);
    assert arg[at] == COLON && arg[at + 1] == 47 && arg[at + 2] == 47;
  }

  /** Refused as bad JSON, with the reason given, if and only if the first separator is `:=`
      behind a name and the rest is not JSON. */
  lemma BadJsonIff(name: Bytes, value: Bytes, check: Bytes -> Option<string>, why: string)
    requires name != [] && forall i :: 0 <= i < |name| ==> name[i] !in Ascii("=:@")
    ensures var arg := name + Ascii(":=") + value;
            Parsed(arg, check) == Err(ItemError(arg, BadJson(why))) <==> check(value) == Some(why)
  {
    Marks();
    assert Ascii(":=") == [COLON, EQ];
    var arg := name + Ascii(":=") + value;
    var rest := [COLON, EQ] + value;
    assert arg == name + rest;
    FirstMarkOf(name, rest);
    assert arg[|name|] == COLON && arg[|name| + 1] == EQ && arg[|name| + 2..] == value;
  }

  /** How each kind of item is written. */
  lemma Spellings(name: Bytes, value: Bytes)
    ensures Printed(Header(name, value)) == name + Ascii(":") + value
    ensures Printed(Query(name, value)) == name + Ascii("==") + value
    ensures Printed(JsonRaw(name, value)) == name + Ascii(":=") + value
    ensures Printed(Data(name, value)) == name + Ascii("=") + value
    ensures Printed(File(name, value)) == name + Ascii("@") + value
  {
    assert Ascii(":") == [COLON] && Ascii("==") == [EQ, EQ] && Ascii(":=") == [COLON, EQ];
    assert Ascii("=") == [EQ] && Ascii("@") == [AT];
  }
}
