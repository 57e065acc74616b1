/** A reader for the grammar of RFC 8259, and what it makes of the printed text. */
module JsonRead {
  import opened Wrappers
  import opened JsonPrint

  // ----- tokens (section 2: structural characters, literal names, strings, numbers)

  datatype Token = Punct(c: char) | Word(name: string) | Num(lexeme: string) | Str(text: string)

  predicate IsSpace(c: char) {
    c == ' ' || c == '\t' || c == '\n' || c == '\r'
  }

  predicate IsPunct(c: char) {
    c in "[]{}:,"
  }

  predicate WordChar(c: char) {
    'a' <= c <= 'z'
  }

  predicate NumChar(c: char) {
    Digit(c) || c in "+-.eE"
  }

  function WordLen(s: string): (n: nat)
    ensures n <= |s|
  {
    if s == "" || !WordChar(s[0]) then 0 else 1 + WordLen(s[1..])
  }

  function NumLen(s: string): (n: nat)
    ensures n <= |s|
  {
    if s == "" || !NumChar(s[0]) then 0 else 1 + NumLen(s[1..])
  }

  /** A string behind its opening quote (section 7), and the text behind its closing one. */
  datatype StringRead = Malformed | Read(text: string, rest: string)

  function Cons(c: char, r: StringRead): StringRead {
    if r.Read? then Read([c] + r.text, r.rest) else r
  }

  function Hex(c: char): (r: Option<int>)
    ensures r.Some? ==> 0 <= r.value < 16
  {
    if '0' <= c <= '9' then Some(c as int - '0' as int)
    else if 'a' <= c <= 'f' then Some(c as int - 'a' as int + 10)
    else if 'A' <= c <= 'F' then Some(c as int - 'A' as int + 10)
    else None
  }

  /** The code unit of `uXXXX` at the start of `s`. */
  function CodeUnit(s: string): (r: Option<int>)
    ensures r.Some? ==> |s| >= 5 && 0 <= r.value < 0x1_0000
  {
    if |s| >= 5 && s[0] == 'u' && Hex(s[1]).Some? && Hex(s[2]).Some? && Hex(s[3]).Some? && Hex(s[4]).Some? then
      Some(0x1000 * Hex(s[1]).value + 0x100 * Hex(s[2]).value + 0x10 * Hex(s[3]).value + Hex(s[4]).value)
    else None
  }

  function ShortEscape(c: char): Option<char> {
    if c == '\"' || c == '\\' || c == '/' then Some(c)
    else if c == 'b' then Some('\U{08}')
    else if c == 'f' then Some('\U{0C}')
    else if c == 'n' then Some('\n')
    else if c == 'r' then Some('\r')
    else if c == 't' then Some('\t')
    else None
  }

  function ReadString(s: string): (r: StringRead)
    ensures r.Read? ==> |r.rest| < |s|
    decreases |s|
  {
    if s == "" then Malformed
    else if s[0] == '\"' then Read("", s[1..])
    else if s[0] == '\\' then
      if |s| > 1 && ShortEscape(s[1]).Some? then Cons(ShortEscape(s[1]).value, ReadString(s[2..]))
      else
        var u := CodeUnit(s[1..]);
        if u.None? then Malformed
        else if u.value < 0xD800 || 0xE000 <= u.value then Cons(u.value as char, ReadString(s[6..]))
        else if u.value < 0xDC00 && |s| > 6 && s[6] == '\\' then
          var l := CodeUnit(s[7..]);
          if l.Some? && 0xDC00 <= l.value < 0xE000 then
            Cons((0x1_0000 + 0x400 * (u.value - 0xD800) + (l.value - 0xDC00)) as char, ReadString(s[12..]))
          else Malformed
        else Malformed
    else if s[0] < ' ' then Malformed
    else Cons(s[0], ReadString(s[1..]))
  }

  function Prepend(tokens: seq<Token>, o: Option<seq<Token>>): Option<seq<Token>> {
    if o.Some? then Some(tokens + o.value) else None
  }

  function Lex(s: string): Option<seq<Token>>
    decreases |s|
  {
    if s == "" then Some([])
    else if IsSpace(s[0]) then Lex(s[1..])
    else if IsPunct(s[0]) then Prepend([Punct(s[0])], Lex(s[1..]))
    else if s[0] == '\"' then
      var r := ReadString(s[1..]);
      if r.Read? then Prepend([Str(r.text)], Lex(r.rest)) else None
    else if WordChar(s[0]) then
      var n := WordLen(s);
      Prepend([Word(s[..n])], Lex(s[n..]))
    else if NumChar(s[0]) then
      var n := NumLen(s);
      if IsNumber(s[..n]) then Prepend([Num(s[..n])], Lex(s[n..])) else None
    else None
  }

  // ----- values (sections 3 to 5)

  datatype Parsed<+T> = Fail | Parsed(value: T, rest: seq<Token>)

  function ParseValue(ts: seq<Token>): (r: Parsed<Json>)
    ensures r.Parsed? ==> |r.rest| < |ts|
    decreases |ts|, 0
  {
    if ts == [] then Fail
    else
      match ts[0]
      case Word(w) =>
        if w == "null" then Parsed(Null, ts[1..])
        else if w == "true" then Parsed(Bool(true), ts[1..])
        else if w == "false" then Parsed(Bool(false), ts[1..])
        else Fail
      case Num(n) => Parsed(Number(n), ts[1..])
      case Str(s) => Parsed(String(s), ts[1..])
      case Punct(c) =>
        if c == '[' then
          if |ts| > 1 && ts[1] == Punct(']') then Parsed(Array([]), ts[2..])
          else
            var r := ParseItems(ts[1..]);
            if r.Parsed? then Parsed(Array(r.value), r.rest) else Fail
        else if c == '{' then
          if |ts| > 1 && ts[1] == Punct('}') then Parsed(Object([]), ts[2..])
          else
            var r := ParseMembers(ts[1..]);
            if r.Parsed? then Parsed(Object(r.value), r.rest) else Fail
        else Fail
  }

  /** At least one item, up to and including the closing bracket. */
  function ParseItems(ts: seq<Token>): (r: Parsed<seq<Json>>)
    ensures r.Parsed? ==> |r.rest| < |ts|
    decreases |ts|, 1
  {
    var v := ParseValue(ts);
    if v.Fail? || v.rest == [] then Fail
    else if v.rest[0] == Punct(']') then Parsed([v.value], v.rest[1..])
    else if v.rest[0] == Punct(',') then
      var more := ParseItems(v.rest[1..]);
      if more.Parsed? then Parsed([v.value] + more.value, more.rest) else Fail
    else Fail
  }

  function ParseMembers(ts: seq<Token>): (r: Parsed<seq<Member>>)
    ensures r.Parsed? ==> |r.rest| < |ts|
    decreases |ts|, 1
  {
    if |ts| < 2 || !ts[0].Str? || ts[1] != Punct(':') then Fail
    else
      var v := ParseValue(ts[2..]);
      if v.Fail? || v.rest == [] then Fail
      else if v.rest[0] == Punct('}') then Parsed([Member(ts[0].text, v.value)], v.rest[1..])
      else if v.rest[0] == Punct(',') then
        var more := ParseMembers(v.rest[1..]);
        if more.Parsed? then Parsed([Member(ts[0].text, v.value)] + more.value, more.rest) else Fail
      else Fail
  }

  /** The value of a whole text. */
  function Parse(text: string): Option<Json> {
    var ts := Lex(text);
    if ts.None? then None
    else
      var r := ParseValue(ts.value);
      if r.Parsed? && r.rest == [] then Some(r.value) else None
  }

  // ----- the tokens of a value

  function Tokens(v: Json): seq<Token>
    decreases v, 0
  {
    match v
    case Null => [Word("null")]
    case Bool(b) => [Word(if b then "true" else "false")]
    case Number(n) => [Num(n)]
    case String(s) => [Str(s)]
    case Array(xs) => [Punct('[')] + ItemTokens(xs, 0) + [Punct(']')]
    case Object(m) => [Punct('{')] + MemberTokens(m, 0) + [Punct('}')]
  }

  function Between(more: bool): seq<Token> {
    if more then [Punct(',')] else []
  }

  function ItemTokens(xs: seq<Json>, i: nat): seq<Token>
    requires i <= |xs|
    decreases xs, |xs| - i
  {
    if i == |xs| then [] else Tokens(xs[i]) + (Between(i + 1 < |xs|) + ItemTokens(xs, i + 1))
  }

  function MemberTokens(m: seq<Member>, i: nat): seq<Token>
    requires i <= |m|
    decreases m, |m| - i
  {
    if i == |m| then []
    else [Str(m[i].key), Punct(':')] + (Tokens(m[i].value) + (Between(i + 1 < |m|) + MemberTokens(m, i + 1)))
  }

  /** Every number in the value is one. */
  predicate WellFormed(v: Json) {
    match v
    case Number(n) => IsNumber(n)
    case Array(xs) => forall i :: 0 <= i < |xs| ==> WellFormed(xs[i])
    case Object(m) => forall i :: 0 <= i < |m| ==> WellFormed(m[i].value)
    case _ => true
  }

  // ----- tokens parse back

  lemma RegroupThree<T>(b: seq<T>, c: seq<T>, d: seq<T>, e: seq<T>)
    ensures b + (c + d) + e == b + (c + (d + e))
  {
  }

  lemma Regroup<T>(a: seq<T>, b: seq<T>, c: seq<T>, d: seq<T>, e: seq<T>)
    ensures a + (b + (c + d)) + e == a + (b + (c + (d + e)))
  {
  }

  lemma {:induction false} ParsesBack(v: Json, rest: seq<Token>)
    ensures ParseValue(Tokens(v) + rest) == Parsed(v, rest)
    decreases v, 0
  {
    hide ParseItems, ParseMembers, ItemTokens, MemberTokens;
    var ts := Tokens(v) + rest;
    match v
    case Null => assert ts[1..] == rest;
    case Bool(_) => assert ts[1..] == rest;
    case Number(_) => assert ts[1..] == rest;
    case String(_) => assert ts[1..] == rest;
    case Array(xs) =>
      if xs == [] {
        NoTokens(xs, []);
        assert ts[1] == Punct(']') && ts[2..] == rest;
      } else {
        ItemsParseBack(xs, 0, rest);
        assert ts[1..] == ItemTokens(xs, 0) + ([Punct(']')] + rest);
        FirstItemToken(xs);
        assert ts[1] == ItemTokens(xs, 0)[0];
        assert xs[0..] == xs;
      }
    case Object(m) =>
      if m == [] {
        NoTokens([], m);
        assert ts[1] == Punct('}') && ts[2..] == rest;
      } else {
        MembersParseBack(m, 0, rest);
        assert ts[1..] == MemberTokens(m, 0) + ([Punct('}')] + rest);
        FirstMemberToken(m);
        assert ts[1] == MemberTokens(m, 0)[0];
        assert m[0..] == m;
      }
  }

  lemma NoTokens(xs: seq<Json>, m: seq<Member>)
    ensures xs == [] ==> ItemTokens(xs, 0) == []
    ensures m == [] ==> MemberTokens(m, 0) == []
  {
  }

  lemma FirstItemToken(xs: seq<Json>)
    requires xs != []
    ensures ItemTokens(xs, 0) != [] && ItemTokens(xs, 0)[0] != Punct(']')
  {
    FirstToken(xs[0]);
  }

  lemma FirstMemberToken(m: seq<Member>)
    requires m != []
    ensures MemberTokens(m, 0) != [] && MemberTokens(m, 0)[0].Str?
  {
  }

  lemma FirstToken(v: Json)
    ensures Tokens(v) != [] && Tokens(v)[0] != Punct(']')
  {
  }

  lemma ItemRead(ts: seq<Token>, v: Json, tail: seq<Token>)
    ensures ParseValue(ts) == Parsed(v, [Punct(']')] + tail) ==> ParseItems(ts) == Parsed([v], tail)
    ensures ParseValue(ts) == Parsed(v, [Punct(',')] + tail) && ParseItems(tail).Parsed? ==>
              ParseItems(ts) == Parsed([v] + ParseItems(tail).value, ParseItems(tail).rest)
  {
    hide ParseValue;
    assert ([Punct(']')] + tail)[1..] == tail && ([Punct(',')] + tail)[1..] == tail;
  }

  /** An item, a comma and more items, or an item and the closing bracket. */
  lemma ItemTokensFront(xs: seq<Json>, i: nat, end: seq<Token>)
    requires i < |xs|
    ensures ItemTokens(xs, i) + end ==
            Tokens(xs[i]) + if i + 1 < |xs| then [Punct(',')] + (ItemTokens(xs, i + 1) + end) else end
  {
    hide Tokens;
    RegroupThree(Tokens(xs[i]), Between(i + 1 < |xs|), ItemTokens(xs, i + 1), end);
    if i + 1 == |xs| {
      assert [] + ([] + end) == end;
    }
  }

  /** The first item and a comma in front of items that parse. */
  lemma AnotherItem(xs: seq<Json>, i: nat, all: seq<Token>, tail: seq<Token>, rest: seq<Token>)
    requires i + 1 < |xs| && ParseValue(all) == Parsed(xs[i], [Punct(',')] + tail)
    requires ParseItems(tail) == Parsed(xs[i + 1..], rest)
    ensures ParseItems(all) == Parsed(xs[i..], rest)
  {
    hide ParseValue, ParseItems;
    ItemRead(all, xs[i], tail);
    assert xs[i..] == [xs[i]] + xs[i + 1..];
  }

  lemma LastItem(xs: seq<Json>, i: nat, all: seq<Token>, rest: seq<Token>)
    requires i + 1 == |xs| && ParseValue(all) == Parsed(xs[i], [Punct(']')] + rest)
    ensures ParseItems(all) == Parsed(xs[i..], rest)
  {
    hide ParseValue, ParseItems;
    ItemRead(all, xs[i], rest);
    assert xs[i..] == [xs[i]];
  }

  lemma {:induction false} ItemsParseBack(xs: seq<Json>, i: nat, rest: seq<Token>)
    requires i < |xs|
    ensures ParseItems(ItemTokens(xs, i) + ([Punct(']')] + rest)) == Parsed(xs[i..], rest)
    decreases xs, |xs| - i
  {
    hide Tokens, ItemTokens, ParseValue, ParseItems;
    var end := [Punct(']')] + rest;
    var all := ItemTokens(xs, i) + end;
    ItemTokensFront(xs, i, end);
    if i + 1 < |xs| {
      var tail := ItemTokens(xs, i + 1) + end;
      ParsesBack(xs[i], [Punct(',')] + tail);
      ItemsParseBack(xs, i + 1, rest);
      AnotherItem(xs, i, all, tail, rest);
    } else {
      ParsesBack(xs[i], end);
      LastItem(xs, i, all, rest);
    }
  }

  lemma MemberRead(key: string, ts: seq<Token>, v: Json, tail: seq<Token>)
    ensures var all := [Str(key), Punct(':')] + ts;
            && (ParseValue(ts) == Parsed(v, [Punct('}')] + tail) ==>
                  ParseMembers(all) == Parsed([Member(key, v)], tail))
            && (ParseValue(ts) == Parsed(v, [Punct(',')] + tail) && ParseMembers(tail).Parsed? ==>
                  ParseMembers(all) == Parsed([Member(key, v)] + ParseMembers(tail).value, ParseMembers(tail).rest))
  {
    hide ParseValue;
    var all := [Str(key), Punct(':')] + ts;
    assert all[0] == Str(key) && all[1] == Punct(':') && all[2..] == ts;
    assert ([Punct('}')] + tail)[1..] == tail && ([Punct(',')] + tail)[1..] == tail;
  }

  lemma MemberTokensFront(m: seq<Member>, i: nat, end: seq<Token>)
    requires i < |m|
    ensures MemberTokens(m, i) + end ==
            [Str(m[i].key), Punct(':')] +
            (Tokens(m[i].value) + (Between(i + 1 < |m|) + (MemberTokens(m, i + 1) + end)))
  {
    hide Tokens;
    Regroup([Str(m[i].key), Punct(':')], Tokens(m[i].value), Between(i + 1 < |m|), MemberTokens(m, i + 1), end);
  }

  lemma {:induction false} MembersParseBack(m: seq<Member>, i: nat, rest: seq<Token>)
    requires i < |m|
    ensures ParseMembers(MemberTokens(m, i) + ([Punct('}')] + rest)) == Parsed(m[i..], rest)
    decreases m, |m| - i
  {
    hide Tokens, MemberTokens, ParseValue, ParseMembers;
    var end := [Punct('}')] + rest;
    var tail := MemberTokens(m, i + 1) + end;
    var key, value := m[i].key, Tokens(m[i].value);
    MemberTokensFront(m, i, end);
    if i + 1 < |m| {
      var after := [Punct(',')] + tail;
      ParsesBack(m[i].value, after);
      MembersParseBack(m, i + 1, rest);
      MemberRead(key, value + after, m[i].value, tail);
      assert m[i..] == [m[i]] + m[i + 1..];
    } else {
      NoMoreTokens([], m);
      assert [] + ([] + end) == end;
      ParsesBack(m[i].value, end);
      MemberRead(key, value + end, m[i].value, rest);
      assert m[i..] == [m[i]];
    }
  }

  lemma NoMoreTokens(xs: seq<Json>, m: seq<Member>)
    ensures ItemTokens(xs, |xs|) == [] && MemberTokens(m, |m|) == []
  {
  }

  // ----- strings read back

  lemma HexReads(n: int)
    requires 0 <= n < 16
    ensures Hex(HexDigit(n)) == Some(n)
  {
  }

  lemma ShortReads(e: char, rest: string)
    requires ShortEscape(e).Some?
    ensures ReadString(['\\', e] + rest) == Cons(ShortEscape(e).value, ReadString(rest))
  {
    assert (['\\', e] + rest)[2..] == rest;
  }

  lemma CodeUnitReads(c: char, rest: string)
    requires c < ' '
    ensures CodeUnit("u00" + [HexDigit(c as int / 16), HexDigit(c as int % 16)] + rest) == Some(c as int)
  {
    var u := "u00" + [HexDigit(c as int / 16), HexDigit(c as int % 16)] + rest;
    assert u[0] == 'u' && u[1] == '0' && u[2] == '0';
    assert u[3] == HexDigit(c as int / 16) && u[4] == HexDigit(c as int % 16);
    HexReads(c as int / 16);
    HexReads(c as int % 16);
  }

  lemma UnicodeReads(c: char, rest: string)
    requires c < ' '
    ensures ReadString("\\u00" + [HexDigit(c as int / 16), HexDigit(c as int % 16)] + rest) == Cons(c, ReadString(rest))
  {
    hide CodeUnit, HexDigit;
    var h := [HexDigit(c as int / 16), HexDigit(c as int % 16)];
    var s := "\\u00" + h + rest;
    CodeUnitReads(c, rest);
    assert s[1..] == "u00" + h + rest && s[6..] == rest;
    assert s[0] == '\\' && s[1] == 'u';
  }

  lemma EscapeReads(c: char, rest: string)
    ensures ReadString(EscapedChar(c) + rest) == Cons(c, ReadString(rest))
  {
    hide ReadString;
    if |EscapedChar(c)| == 2 {
      ShortReads(EscapedChar(c)[1], rest);
    } else if c < ' ' {
      UnicodeReads(c, rest);
    } else {
      PlainReads(c, rest);
    }
  }

  lemma PlainReads(c: char, rest: string)
    requires c >= ' ' && c != '\"' && c != '\\'
    ensures ReadString([c] + rest) == Cons(c, ReadString(rest))
  {
    assert ([c] + rest)[1..] == rest;
  }

  lemma QuoteReads(rest: string)
    ensures ReadString("\"" + rest) == Read("", rest)
  {
    assert ("\"" + rest)[1..] == rest;
  }

  lemma {:induction false} QuotedReads(t: string, rest: string)
    ensures ReadString(Escaped(t) + ("\"" + rest)) == Read(t, rest)
  {
    hide ReadString, EscapedChar;
    var end := "\"" + rest;
    if t == "" {
      QuoteReads(rest);
      assert Escaped(t) + end == end;
    } else {
      QuotedReads(t[1..], rest);
      EscapeReads(t[0], Escaped(t[1..]) + end);
      assert Escaped(t) + end == EscapedChar(t[0]) + (Escaped(t[1..]) + end);
      assert [t[0]] + t[1..] == t;
    }
  }

  // ----- lexemes lex back

  /** Behind a value comes the end, a comma or a newline. */
  predicate Delimited(rest: string) {
    rest == "" || rest[0] == ',' || rest[0] == '\n'
  }

  lemma LexSpace(c: char, rest: string)
    requires IsSpace(c)
    ensures Lex([c] + rest) == Lex(rest)
  {
    assert ([c] + rest)[1..] == rest;
  }

  lemma LexPunct(c: char, rest: string)
    requires IsPunct(c)
    ensures Lex([c] + rest) == Prepend([Punct(c)], Lex(rest))
  {
    assert ([c] + rest)[1..] == rest;
  }

  lemma {:induction false} LexPad(depth: nat, rest: string)
    ensures Lex(Pad(depth) + rest) == Lex(rest)
  {
    hide Lex;
    if depth == 0 {
      assert Pad(depth) + rest == rest;
    } else {
      var s := Pad(depth - 1) + rest;
      LexPad(depth - 1, rest);
      LexSpace(' ', s);
      LexSpace(' ', " " + s);
      LexSpace(' ', "  " + s);
      LexSpace(' ', "   " + s);
      assert " " + (" " + s) == "  " + s && " " + ("  " + s) == "   " + s && " " + ("   " + s) == "    " + s;
      assert Pad(depth) + rest == "    " + s;
    }
  }

  lemma LexQuoted(t: string, rest: string)
    ensures Lex(Quoted(t) + rest) == Prepend([Str(t)], Lex(rest))
  {
    hide ReadString, Escaped;
    var s := Quoted(t) + rest;
    QuotedReads(t, rest);
    assert s[0] == '\"' && s[1..] == Escaped(t) + ("\"" + rest);
  }

  lemma {:induction false} WordLenOf(w: string, rest: string)
    requires (forall i :: 0 <= i < |w| ==> WordChar(w[i])) && Delimited(rest)
    ensures WordLen(w + rest) == |w|
  {
    if w == "" {
      assert w + rest == rest;
    } else {
      assert (w + rest)[1..] == w[1..] + rest;
      WordLenOf(w[1..], rest);
    }
  }

  lemma LexWord(w: string, rest: string)
    requires w == "null" || w == "true" || w == "false"
    requires Delimited(rest)
    ensures Lex(w + rest) == Prepend([Word(w)], Lex(rest))
  {
    WordLenOf(w, rest);
    assert (w + rest)[..|w|] == w && (w + rest)[|w|..] == rest;
  }

  lemma {:induction false} NumLenOf(n: string, rest: string)
    requires (forall i :: 0 <= i < |n| ==> NumChar(n[i])) && Delimited(rest)
    ensures NumLen(n + rest) == |n|
  {
    if n == "" {
      assert n + rest == rest;
    } else {
      assert (n + rest)[1..] == n[1..] + rest;
      NumLenOf(n[1..], rest);
    }
  }

  lemma UnsignedChars(s: string)
    requires IsUnsigned(s)
    ensures s != "" && Digit(s[0]) && forall i :: 0 <= i < |s| ==> NumChar(s[i])
  {
    var i, j :| 0 <= i <= j <= |s| && NumberSplit(s, i, j);
    assert s[..i] != "" && s[0] == s[..i][0];
    forall k | 0 <= k < |s|
      ensures NumChar(s[k])
    {
      if k < i {
        assert s[k] == s[..i][k];
      } else if i < k < j {
        assert s[k] == s[i + 1..j][k - i - 1];
      } else if j <= k {
        var e := s[j..];
        assert s[k] == e[k - j];
        assert k > j ==> e[1..][k - j - 1] == s[k];
        assert k > j + 1 ==> e[2..][k - j - 2] == s[k];
      }
    }
  }

  lemma NumberChars(n: string)
    requires IsNumber(n)
    ensures n != "" && (Digit(n[0]) || n[0] == '-') && forall i :: 0 <= i < |n| ==> NumChar(n[i])
  {
    if IsUnsigned(n) {
      UnsignedChars(n);
    } else {
      UnsignedChars(n[1..]);
      assert forall i :: 1 <= i < |n| ==> n[i] == n[1..][i - 1];
    }
  }

  lemma LexNumber(n: string, rest: string)
    requires IsNumber(n) && Delimited(rest)
    ensures Lex(n + rest) == Prepend([Num(n)], Lex(rest))
  {
    NumberChars(n);
    NumLenOf(n, rest);
    assert (n + rest)[..|n|] == n && (n + rest)[|n|..] == rest;
  }

  // ----- values lex back

  lemma LexComma(more: bool, rest: string)
    ensures Lex(Comma(more) + rest) == Prepend(Between(more), Lex(rest))
  {
    hide Lex;
    LexSpace('\n', rest);
    PrependNothing(Lex(rest));
    if more {
      LexPunct(',', "\n" + rest);
      assert Comma(more) + rest == "," + ("\n" + rest);
    }
  }

  lemma PrependNothing(o: Option<seq<Token>>)
    ensures Prepend([], o) == o
  {
    if o.Some? {
      assert [] + o.value == o.value;
    }
  }

  lemma PrependTwice(a: seq<Token>, b: seq<Token>, o: Option<seq<Token>>)
    ensures Prepend(a, Prepend(b, o)) == Prepend(a + b, o)
  {
    if o.Some? {
      assert a + (b + o.value) == a + b + o.value;
    }
  }

  lemma {:induction false} LexesBack(v: Json, depth: nat, rest: string)
    requires WellFormed(v) && Delimited(rest)
    ensures Lex(Text(v, depth) + rest) == Prepend(Tokens(v), Lex(rest))
    decreases v, 0
  {
    hide Lex, Rows, MemberRows, ItemTokens, MemberTokens;
    match v
    case Null => LexWord("null", rest);
    case Bool(b) => LexWord(if b then "true" else "false", rest);
    case Number(n) => LexNumber(n, rest);
    case String(s) => LexQuoted(s, rest);
    case Array(xs) =>
      if xs == [] {
        NoTokens(xs, []);
        LexPunct(']', rest);
        LexPunct('[', "]" + rest);
        assert "[]" + rest == "[" + ("]" + rest);
        PrependTwice([Punct('[')], [Punct(']')], Lex(rest));
        assert [Punct('[')] + [] + [Punct(']')] == [Punct('[')] + [Punct(']')];
      } else {
        RowsLexBack(xs, 0, depth, Pad(depth) + ("]" + rest));
        LexBracketed('[', Rows(xs, 0, depth), ItemTokens(xs, 0), depth, ']', rest);
      }
    case Object(m) =>
      if m == [] {
        NoTokens([], m);
        LexPunct('}', rest);
        LexPunct('{', "}" + rest);
        assert "{}" + rest == "{" + ("}" + rest);
        PrependTwice([Punct('{')], [Punct('}')], Lex(rest));
        assert [Punct('{')] + [] + [Punct('}')] == [Punct('{')] + [Punct('}')];
      } else {
        MemberRowsLexBack(m, 0, depth, Pad(depth) + ("}" + rest));
        LexBracketed('{', MemberRows(m, 0, depth), MemberTokens(m, 0), depth, '}', rest);
      }
  }

  lemma LexBracketed(open: char, rows: string, tokens: seq<Token>, depth: nat, close: char, rest: string)
    requires IsPunct(open) && IsPunct(close)
    requires Lex(rows + (Pad(depth) + ([close] + rest))) == Prepend(tokens, Lex(Pad(depth) + ([close] + rest)))
    ensures Lex([open, '\n'] + (rows + (Pad(depth) + [close])) + rest) ==
            Prepend([Punct(open)] + tokens + [Punct(close)], Lex(rest))
  {
    hide Lex, Pad;
    LexPad(depth, [close] + rest);
    LexPunct(close, rest);
    var inner := rows + (Pad(depth) + ([close] + rest));
    LexSpace('\n', inner);
    LexPunct(open, ['\n'] + inner);
    assert [open, '\n'] + (rows + (Pad(depth) + [close])) + rest == [open] + (['\n'] + inner) by {
      Regroup([open, '\n'], rows, Pad(depth), [close], rest);
      assert [open, '\n'] + inner == [open] + (['\n'] + inner);
    }
    PrependTwice(tokens, [Punct(close)], Lex(rest));
    PrependTwice([Punct(open)], tokens + [Punct(close)], Lex(rest));
    assert [Punct(open)] + (tokens + [Punct(close)]) == [Punct(open)] + tokens + [Punct(close)];
  }

  lemma RowsFront(xs: seq<Json>, i: nat, depth: nat, rest: string)
    requires i < |xs|
    ensures Rows(xs, i, depth) + rest ==
            Pad(depth + 1) + (Text(xs[i], depth + 1) + (Comma(i + 1 < |xs|) + (Rows(xs, i + 1, depth) + rest)))
  {
    hide Text, Pad;
    var tail := Rows(xs, i + 1, depth) + rest;
    assert Rows(xs, i, depth) + rest == Row(xs, i, depth) + tail;
    RegroupThree(Pad(depth + 1), Text(xs[i], depth + 1), Comma(i + 1 < |xs|), tail);
  }

  lemma {:induction false} RowsLexBack(xs: seq<Json>, i: nat, depth: nat, rest: string)
    requires i <= |xs| && forall k :: 0 <= k < |xs| ==> WellFormed(xs[k])
    ensures Lex(Rows(xs, i, depth) + rest) == Prepend(ItemTokens(xs, i), Lex(rest))
    decreases xs, |xs| - i
  {
    hide Lex, Text, Tokens, Pad;
    if i == |xs| {
      assert Rows(xs, i, depth) + rest == rest;
      PrependNothing(Lex(rest));
    } else {
      var tail := Rows(xs, i + 1, depth) + rest;
      var text, comma := Text(xs[i], depth + 1), Comma(i + 1 < |xs|);
      RowsLexBack(xs, i + 1, depth, rest);
      LexComma(i + 1 < |xs|, tail);
      LexesBack(xs[i], depth + 1, comma + tail);
      LexPad(depth + 1, text + (comma + tail));
      RowsFront(xs, i, depth, rest);
      PrependTwice(Between(i + 1 < |xs|), ItemTokens(xs, i + 1), Lex(rest));
      PrependTwice(Tokens(xs[i]), Between(i + 1 < |xs|) + ItemTokens(xs, i + 1), Lex(rest));
    }
  }

  lemma MemberRowsFront(m: seq<Member>, i: nat, depth: nat, rest: string)
    requires i < |m|
    ensures MemberRows(m, i, depth) + rest ==
            Pad(depth + 1) + (Quoted(m[i].key) + (": " +
            (Text(m[i].value, depth + 1) + (Comma(i + 1 < |m|) + (MemberRows(m, i + 1, depth) + rest)))))
  {
    hide Text, Pad, Quoted;
    var tail := MemberRows(m, i + 1, depth) + rest;
    var text, comma := Text(m[i].value, depth + 1), Comma(i + 1 < |m|);
    assert MemberRows(m, i, depth) + rest == MemberRow(m, i, depth) + tail;
    Regroup(Pad(depth + 1), Quoted(m[i].key), ": ", text + comma, tail);
    assert text + comma + tail == text + (comma + tail);
  }

  lemma {:induction false} MemberRowsLexBack(m: seq<Member>, i: nat, depth: nat, rest: string)
    requires i <= |m| && forall k :: 0 <= k < |m| ==> WellFormed(m[k].value)
    ensures Lex(MemberRows(m, i, depth) + rest) == Prepend(MemberTokens(m, i), Lex(rest))
    decreases m, |m| - i
  {
    hide Lex, Text, Tokens, Pad, Quoted;
    if i == |m| {
      assert MemberRows(m, i, depth) + rest == rest;
      PrependNothing(Lex(rest));
    } else {
      var tail := MemberRows(m, i + 1, depth) + rest;
      var text, comma := Text(m[i].value, depth + 1), Comma(i + 1 < |m|);
      MemberRowsLexBack(m, i + 1, depth, rest);
      LexComma(i + 1 < |m|, tail);
      LexesBack(m[i].value, depth + 1, comma + tail);
      LexKey(m[i].key, text + (comma + tail));
      LexPad(depth + 1, Quoted(m[i].key) + (": " + (text + (comma + tail))));
      MemberRowsFront(m, i, depth, rest);
      PrependTwice(Between(i + 1 < |m|), MemberTokens(m, i + 1), Lex(rest));
      PrependTwice(Tokens(m[i].value), Between(i + 1 < |m|) + MemberTokens(m, i + 1), Lex(rest));
      PrependTwice([Str(m[i].key), Punct(':')],
                   Tokens(m[i].value) + (Between(i + 1 < |m|) + MemberTokens(m, i + 1)), Lex(rest));
    }
  }

  lemma LexKey(key: string, rest: string)
    ensures Lex(Quoted(key) + (": " + rest)) == Prepend([Str(key), Punct(':')], Lex(rest))
  {
    hide Lex, Quoted;
    LexSpace(' ', rest);
    LexPunct(':', " " + rest);
    assert ": " + rest == ":" + (" " + rest);
    LexQuoted(key, ": " + rest);
    PrependTwice([Str(key)], [Punct(':')], Lex(rest));
    assert [Str(key)] + [Punct(':')] == [Str(key), Punct(':')];
  }

  /** Printed at any depth, a value reads back as itself. */
  lemma PrintedParses(v: Json, depth: nat)
    requires WellFormed(v)
    ensures Parse(Text(v, depth)) == Some(v)
  {
    LexesBack(v, depth, "");
    assert Text(v, depth) + "" == Text(v, depth);
    ParsesBack(v, []);
    assert Tokens(v) + [] == Tokens(v);
  }

  // ----- one level deeper

  /** Four spaces behind every newline. */
  function Indented(s: string): string {
    if s == "" then "" else if s[0] == '\n' then "\n    " + Indented(s[1..]) else [s[0]] + Indented(s[1..])
  }

  lemma {:induction false} IndentedAppend(a: string, b: string)
    ensures Indented(a + b) == Indented(a) + Indented(b)
  {
    if a == "" {
      assert a + b == b;
    } else {
      assert (a + b)[1..] == a[1..] + b;
      IndentedAppend(a[1..], b);
    }
  }

  lemma {:induction false} IndentedPlain(s: string)
    requires '\n' !in s
    ensures Indented(s) == s
  {
    if s != "" {
      IndentedPlain(s[1..]);
    }
  }

  lemma {:induction false} NoRawNewline(t: string)
    ensures '\n' !in Escaped(t)
  {
    if t != "" {
      NoRawNewline(t[1..]);
    }
  }

  lemma {:induction false} PadPlain(depth: nat)
    ensures '\n' !in Pad(depth)
  {
    if depth > 0 {
      PadPlain(depth - 1);
    }
  }

  lemma ScalarPlain(v: Json)
    requires WellFormed(v) && !v.Array? && !v.Object?
    ensures '\n' !in Text(v, 0)
  {
    match v
    case Number(n) => NumberChars(n);
    case String(s) => NoRawNewline(s);
    case _ =>
  }

  lemma QuotedPlain(s: string)
    ensures Indented(Quoted(s)) == Quoted(s)
  {
    NoRawNewline(s);
    IndentedPlain(Quoted(s));
  }

  /** Printing one level deeper only adds four spaces behind each newline. */
  lemma {:induction false} DeeperIsIndented(v: Json, depth: nat)
    requires WellFormed(v)
    ensures Text(v, depth + 1) == Indented(Text(v, depth))
    decreases v, 0
  {
    hide Indented, Pad, Rows, MemberRows;
    match v
    case Array(xs) =>
      if xs == [] {
        IndentedPlain("[]");
      } else {
        RowsIndented(xs, 0, depth);
        BracketedIndented('[', Rows(xs, 0, depth), Rows(xs, 0, depth + 1), depth, ']');
      }
    case Object(m) =>
      if m == [] {
        IndentedPlain("{}");
      } else {
        MemberRowsIndented(m, 0, depth);
        BracketedIndented('{', MemberRows(m, 0, depth), MemberRows(m, 0, depth + 1), depth, '}');
      }
    case _ =>
      ScalarPlain(v);
      IndentedPlain(Text(v, depth));
  }

  const TAB := "    "

  lemma BracketedIndented(open: char, rows: string, rows': string, depth: nat, close: char)
    requires open != '\n' && close != '\n'
    requires TAB + Indented(rows) == rows' + TAB
    ensures Indented([open, '\n'] + (rows + (Pad(depth) + [close]))) ==
            [open, '\n'] + (rows' + (Pad(depth + 1) + [close]))
  {
    hide Indented;
    var end := Pad(depth) + [close];
    IndentedAppend([open, '\n'], rows + end);
    IndentedAppend(rows, end);
    PadPlain(depth);
    IndentedPlain(end);
    OpenIndented(open);
    calc {
      Indented([open, '\n'] + (rows + end));
      [open, '\n'] + TAB + (Indented(rows) + end);
      { assert [open, '\n'] + TAB + (Indented(rows) + end) == [open, '\n'] + ((TAB + Indented(rows)) + end); }
      [open, '\n'] + ((rows' + TAB) + end);
      { assert (rows' + TAB) + end == rows' + (TAB + Pad(depth) + [close]); }
      [open, '\n'] + (rows' + (TAB + Pad(depth) + [close]));
    }
  }

  lemma OpenIndented(open: char)
    requires open != '\n'
    ensures Indented([open, '\n']) == [open, '\n'] + TAB
  {
    assert [open, '\n'][1..] == "\n" && "\n"[1..] == "";
  }

  lemma CommaIndented(more: bool)
    ensures Indented(Comma(more)) == Comma(more) + TAB
  {
    assert ",\n"[1..] == "\n" && "\n"[1..] == "";
  }

  /** One row: its own indentation grows, and its newline takes the next row's share along. */
  lemma RowIndented(pad: nat, text: string, text': string, more: bool)
    requires Indented(text) == text'
    ensures TAB + Indented(Pad(pad) + (text + Comma(more))) == Pad(pad + 1) + (text' + Comma(more)) + TAB
  {
    hide Indented;
    IndentedAppend(Pad(pad), text + Comma(more));
    IndentedAppend(text, Comma(more));
    PadPlain(pad);
    IndentedPlain(Pad(pad));
    CommaIndented(more);
    var c := Comma(more);
    assert TAB + (Pad(pad) + (text' + (c + TAB))) == (TAB + Pad(pad)) + (text' + c) + TAB;
  }

  lemma NextRow(row: string, row': string, rows: string, rows': string)
    requires TAB + Indented(row) == row' + TAB && TAB + Indented(rows) == rows' + TAB
    ensures TAB + Indented(row + rows) == row' + rows' + TAB
  {
    hide Indented;
    IndentedAppend(row, rows);
    assert TAB + (Indented(row) + Indented(rows)) == (TAB + Indented(row)) + Indented(rows);
    assert (row' + TAB) + Indented(rows) == row' + (TAB + Indented(rows));
    assert row' + (rows' + TAB) == row' + rows' + TAB;
  }

  lemma {:induction false} RowsIndented(xs: seq<Json>, i: nat, depth: nat)
    requires i <= |xs| && forall k :: 0 <= k < |xs| ==> WellFormed(xs[k])
    ensures TAB + Indented(Rows(xs, i, depth)) == Rows(xs, i, depth + 1) + TAB
    decreases xs, |xs| - i
  {
    hide Text, Pad, Comma;
    if i < |xs| {
      DeeperIsIndented(xs[i], depth + 1);
      RowIndented(depth + 1, Text(xs[i], depth + 1), Text(xs[i], depth + 2), i + 1 < |xs|);
      RowsIndented(xs, i + 1, depth);
      NextRow(Row(xs, i, depth), Row(xs, i, depth + 1), Rows(xs, i + 1, depth), Rows(xs, i + 1, depth + 1));
    }
  }

  lemma {:induction false} MemberRowsIndented(m: seq<Member>, i: nat, depth: nat)
    requires i <= |m| && forall k :: 0 <= k < |m| ==> WellFormed(m[k].value)
    ensures TAB + Indented(MemberRows(m, i, depth)) == MemberRows(m, i, depth + 1) + TAB
    decreases m, |m| - i
  {
    hide Text, Pad, Comma, Quoted;
    if i < |m| {
      DeeperIsIndented(m[i].value, depth + 1);
      var key, text, text' := Quoted(m[i].key), Text(m[i].value, depth + 1), Text(m[i].value, depth + 2);
      KeyIndented(m[i].key, text);
      RowIndented(depth + 1, key + (": " + text), key + (": " + text'), i + 1 < |m|);
      var c := Comma(i + 1 < |m|);
      RegroupThree(key, ": ", text, c);
      RegroupThree(key, ": ", text', c);
      MemberRowsIndented(m, i + 1, depth);
      NextRow(MemberRow(m, i, depth), MemberRow(m, i, depth + 1),
              MemberRows(m, i + 1, depth), MemberRows(m, i + 1, depth + 1));
    }
  }

  lemma KeyIndented(key: string, text: string)
    ensures Indented(Quoted(key) + (": " + text)) == Quoted(key) + (": " + Indented(text))
  {
    hide Indented, Quoted;
    QuotedPlain(key);
    IndentedAppend(Quoted(key), ": " + text);
    IndentedAppend(": ", text);
    IndentedPlain(": ");
  }
}
