/** The `--write-out` format: its tokens, what they mean, and the one-pass renderer. */
module WriteOut {
  import opened Wrappers

  datatype Token =
    | Plain(c: char)
    | Escape(c: char)
    | Dangling
    | DoublePercent
    | Bare
    | Var(name: string)

  /** What the token looks like in a format string. */
  function Source(t: Token): (s: string)
    ensures s != ""
  {
    match t
    case Plain(c) => [c]
    case Escape(c) => ['\\', c]
    case Dangling => "\\"
    case DoublePercent => "%%"
    case Bare => "%"
    case Var(name) => "%{" + name + "}"
  }

  function Sources(ts: seq<Token>): string {
    if ts == [] then "" else Source(ts[0]) + Sources(ts[1..])
  }

  /** A format is a sequence of tokens, or one cut off inside the name of a variable. */
  datatype Lexed = Tokens(ts: seq<Token>) | Unterminated(ts: seq<Token>, name: string)

  function Cons(t: Token, l: Lexed): Lexed {
    l.(ts := [t] + l.ts)
  }

  function FirstBrace(s: string): (p: nat)
    ensures p <= |s| && '}' !in s[..p]
    ensures p < |s| ==> s[p] == '}'
  {
    FirstWhere(s, c => c == '}')
  }

  /** `t` may stand in front of the text `after`. */
  predicate Fits(t: Token, after: string) {
    match t
    case Plain(c) => c != '\\' && c != '%'
    case Dangling => after == ""
    case Bare => after == "" || (after[0] != '%' && after[0] != '{')
    case Var(name) => '}' !in name
    case _ => true
  }

  /** Each token may stand where it does, with the text `end` behind the last one. */
  predicate Canonical(ts: seq<Token>, end: string) {
    ts == [] || (Fits(ts[0], Sources(ts[1..]) + end) && Canonical(ts[1..], end))
  }

  // ----- lexing

  datatype Head = Found(t: Token, size: nat) | Cut(name: string)

  /** The token a format opens with, the text of it, and why it may stand there. */
  function First(f: string): (h: Head)
    requires f != ""
    ensures h.Found? ==> 0 < h.size <= |f| && f[..h.size] == Source(h.t) && Fits(h.t, f[h.size..])
    ensures h.Cut? ==> f == "%{" + h.name && '}' !in h.name
  {
    if f[0] == '\\' then
      if |f| == 1 then Found(Dangling, 1) else Found(Escape(f[1]), 2)
    else if f[0] == '%' then
      if |f| > 1 && f[1] == '%' then Found(DoublePercent, 2)
      else if |f| > 1 && f[1] == '{' then
        var p := FirstBrace(f[2..]);
        if p == |f| - 2 then
          assert f[2..][..p] == f[2..];
          Cut(f[2..])
        else
          assert f[2..][..p] == f[2..2 + p] && f[2..][p] == f[2 + p];
          Found(Var(f[2..2 + p]), 3 + p)
      else Found(Bare, 1)
    else Found(Plain(f[0]), 1)
  }

  function Lex(f: string): Lexed
    decreases |f|
  {
    if f == "" then Tokens([])
    else
      match First(f)
      case Cut(name) => Unterminated([], name)
      case Found(t, size) => Cons(t, Lex(f[size..]))
  }

  function End(l: Lexed): string {
    if l.Tokens? then "" else "%{" + l.name
  }

  lemma BraceAt(name: string, rest: string)
    requires '}' !in name
    ensures FirstBrace(name + "}" + rest) == |name|
  {
    hide FirstBrace;
    var s := name + "}" + rest;
    assert s[|name|] == '}' && s[..|name|] == name;
  }

  lemma VarIsFound(name: string, rest: string)
    requires '}' !in name
    ensures First(Source(Var(name)) + rest) == Found(Var(name), |name| + 3)
  {
    hide FirstBrace;
    var f, p := Source(Var(name)) + rest, |name|;
    BraceAt(name, rest);
    assert f[0] == '%' && f[1] == '{' && f[2..] == name + "}" + rest;
    assert f[2..2 + p] == name;
  }

  /** A token in front of a text it may stand in front of is the one found there. */
  lemma FirstIsUnique(t: Token, rest: string)
    requires Fits(t, rest)
    ensures First(Source(t) + rest) == Found(t, |Source(t)|)
  {
    if t.Var? {
      VarIsFound(t.name, rest);
    } else {
      OtherIsFound(t, rest);
    }
  }

  lemma OtherIsFound(t: Token, rest: string)
    requires Fits(t, rest) && !t.Var?
    ensures First(Source(t) + rest) == Found(t, |Source(t)|)
  {
    hide FirstBrace;
    var f := Source(t) + rest;
    assert f[0] == Source(t)[0];
    assert |Source(t)| == 2 ==> f[1] == Source(t)[1];
    assert |Source(t)| == 1 && rest != "" ==> f[1] == rest[0];
  }

  lemma LexFirst(t: Token, rest: string)
    requires Fits(t, rest)
    ensures Lex(Source(t) + rest) == Cons(t, Lex(rest))
  {
    hide First, Source, Fits;
    FirstIsUnique(t, rest);
    assert (Source(t) + rest)[|Source(t)|..] == rest;
  }

  lemma NoTokens(end: string)
    ensures Sources([]) == "" && Canonical([], end)
  {
  }

  lemma OneMoreToken(t: Token, ts: seq<Token>, end: string)
    ensures Sources([t] + ts) == Source(t) + Sources(ts)
    ensures Canonical([t] + ts, end) <==> Fits(t, Sources(ts) + end) && Canonical(ts, end)
  {
    assert ([t] + ts)[1..] == ts;
  }

  /** The tokens' sources concatenate back to the format, up to where it is cut off, and each
      may stand where it does. */
  lemma {:induction false} LexIsSound(f: string)
    ensures Canonical(Lex(f).ts, End(Lex(f))) && f == Sources(Lex(f).ts) + End(Lex(f))
    ensures Lex(f).Unterminated? ==> '}' !in Lex(f).name
    decreases |f|
  {
    hide First, Source, Sources, Fits, Canonical;
    if f == "" {
      NoTokens("");
    } else if First(f).Cut? {
      NoTokens("%{" + First(f).name);
    } else {
      var t, k := First(f).t, First(f).size;
      LexIsSound(f[k..]);
      var l := Lex(f[k..]);
      OneMoreToken(t, l.ts, End(l));
      assert f == f[..k] + f[k..];
      assert Source(t) + (Sources(l.ts) + End(l)) == Source(t) + Sources(l.ts) + End(l);
    }
  }

  function Append(a: seq<Token>, l: Lexed): Lexed {
    l.(ts := a + l.ts)
  }

  /** Tokens that may stand in front of `b` lex to themselves there. */
  lemma {:induction false} CanonicalLexes(ts: seq<Token>, b: string)
    requires Canonical(ts, b)
    ensures Lex(Sources(ts) + b) == Append(ts, Lex(b))
  {
    hide Source, Lex;
    if ts == [] {
      assert Sources(ts) + b == b && [] + Lex(b).ts == Lex(b).ts;
    } else {
      CanonicalLexes(ts[1..], b);
      var rest := Sources(ts[1..]) + b;
      LexFirst(ts[0], rest);
      assert Sources(ts) + b == Source(ts[0]) + rest;
      assert [ts[0]] + (ts[1..] + Lex(b).ts) == ts + Lex(b).ts;
    }
  }

  lemma EndLexes(l: Lexed)
    requires l.Unterminated? ==> '}' !in l.name
    ensures Lex(End(l)) == l.(ts := [])
  {
    if l.Unterminated? {
      var f := "%{" + l.name;
      assert f[0] == '%' && f[1] == '{' && f[2..] == l.name;
      NoBrace(l.name);
    }
  }

  /** A format, terminated or cut off inside a name, is the source of exactly one well-placed
      token sequence. */
  lemma LexIsUnique(f: string, l: Lexed)
    ensures Lex(f) == l <==>
            f == Sources(l.ts) + End(l) && Canonical(l.ts, End(l)) && (l.Unterminated? ==> '}' !in l.name)
  {
    hide Lex, Sources, Canonical;
    LexIsSound(f);
    if f == Sources(l.ts) + End(l) && Canonical(l.ts, End(l)) && (l.Unterminated? ==> '}' !in l.name) {
      CanonicalLexes(l.ts, End(l));
      EndLexes(l);
      assert l.ts + [] == l.ts;
    }
  }

  // ----- concatenation

  /** The last token of `a` does not read on into `b`. */
  predicate Separate(ts: seq<Token>, b: string) {
    ts == [] || Fits(ts[|ts| - 1], b)
  }

  lemma {:induction false} SourcesAppend(a: seq<Token>, b: seq<Token>)
    ensures Sources(a + b) == Sources(a) + Sources(b)
  {
    if a == [] {
      assert a + b == b;
    } else {
      assert (a + b)[1..] == a[1..] + b;
      SourcesAppend(a[1..], b);
    }
  }

  /** Only the last token looks past the end of the tokens. */
  lemma {:induction false} CanonicalIff(ts: seq<Token>, b: string)
    requires Canonical(ts, "")
    ensures Canonical(ts, b) <==> Separate(ts, b)
  {
    hide Source;
    if ts != [] {
      CanonicalIff(ts[1..], b);
      var rest := Sources(ts[1..]);
      if |ts| > 1 {
        assert rest == Source(ts[1]) + Sources(ts[1..][1..]);
        assert rest != "" && (rest + b)[0] == rest[0] == (rest + "")[0];
      } else {
        assert rest + b == b;
      }
    }
  }

  lemma {:induction false} CanonicalInside(a: seq<Token>, b: seq<Token>, end: string)
    requires Canonical(a + b, end)
    ensures Canonical(a, Sources(b) + end)
  {
    hide Source, Fits;
    if a != [] {
      assert (a + b)[1..] == a[1..] + b;
      CanonicalInside(a[1..], b, end);
      SourcesAppend(a[1..], b);
      assert Sources(a[1..] + b) + end == Sources(a[1..]) + (Sources(b) + end);
    }
  }

  /** Behind a terminated format any other lexes as it does by itself if and only if the left
      one does not end in a backslash or percent sign that reads on into it. */
  lemma LexConcatIff(a: string, b: string)
    requires Lex(a).Tokens?
    ensures Lex(a + b) == Append(Lex(a).ts, Lex(b)) <==> Separate(Lex(a).ts, b)
  {
    hide Lex, Source, Sources, Canonical, Separate;
    LexIsSound(a);
    LexIsSound(b);
    var ts, us := Lex(a).ts, Lex(b).ts;
    assert Sources(ts) + "" == Sources(ts);
    CanonicalIff(ts, b);
    if Separate(ts, b) {
      CanonicalLexes(ts, b);
    }
    if Lex(a + b) == Append(ts, Lex(b)) {
      LexIsSound(a + b);
      CanonicalInside(ts, us, End(Lex(b)));
    }
  }

  // ----- rendering

  datatype Unknown = Unknown(name: string)

  /** What is reported of a variable that never closes. */
  const NO_BRACE := " (unterminated: no `}`)"

  type Env = string -> Option<string>

  function Meaning(t: Token, env: Env): Option<string> {
    match t
    case Plain(c) => Some([c])
    case Escape(c) => Some(if c == 'n' then "\n" else if c == 't' then "\t" else if c == 'r' then "\r" else [c])
    case Dangling => Some("\\")
    case DoublePercent => Some("%")
    case Bare => Some("%")
    case Var(name) => env(name)
  }

  function Prefix(m: string, r: Result<string, Unknown>): Result<string, Unknown> {
    if r.Ok? then Ok(m + r.value) else r
  }

  function RenderTokens(ts: seq<Token>, env: Env): Result<string, Unknown> {
    if ts == [] then Ok("")
    else if Meaning(ts[0], env).None? then Err(Unknown(ts[0].name))
    else Prefix(Meaning(ts[0], env).value, RenderTokens(ts[1..], env))
  }

  function Rendered(f: string, env: Env): Result<string, Unknown> {
    var l := Lex(f);
    var r := RenderTokens(l.ts, env);
    if r.Err? || l.Tokens? then r else Err(Unknown(l.name + NO_BRACE))
  }

  lemma RenderedFirst(f: string, env: Env)
    requires f != ""
    ensures Rendered(f, env) ==
            match First(f) {
              case Cut(name) => Err(Unknown(name + NO_BRACE))
              case Found(t, size) =>
                if Meaning(t, env).None? then Err(Unknown(t.name))
                else Prefix(Meaning(t, env).value, Rendered(f[size..], env))
            }
  {
    hide First, Meaning;
    if First(f).Found? {
      var l := Lex(f[First(f).size..]);
      assert ([First(f).t] + l.ts)[1..] == l.ts;
    }
  }

  lemma PrefixTwice(a: string, b: string, r: Result<string, Unknown>)
    ensures Prefix(a, Prefix(b, r)) == Prefix(a + b, r)
  {
    if r.Ok? {
      assert a + (b + r.value) == a + b + r.value;
    }
  }

  /** One pass over the characters, pushing to `out`. */
  method Render(f: string, env: Env) returns (r: Result<string, Unknown>)
    ensures r == Rendered(f, env)
  {
    hide Rendered, First, Meaning;
    var out := "";
    var i := 0;
    assert f[0..] == f;
    PrefixNothing(Rendered(f, env));
    while i < |f|
      invariant i <= |f| && Prefix(out, Rendered(f[i..], env)) == Rendered(f, env)
    {
      RenderedFirst(f[i..], env);
      var pushed, size := Expand(f, i, env);
      if pushed.Err? {
        return pushed;
      }
      PrefixTwice(out, pushed.value, Rendered(f[i..][size..], env));
      assert f[i..][size..] == f[i + size..];
      out, i := out + pushed.value, i + size;
    }
    assert f[i..] == "";
    RenderedNothing(env);
    assert out + "" == out;
    r := Ok(out);
  }

  /** What the token at `i` pushes, and how many characters it takes. */
  method Expand(f: string, i: nat, env: Env) returns (r: Result<string, Unknown>, size: nat)
    requires i < |f|
    ensures match First(f[i..])
            case Cut(name) => r == Err(Unknown(name + NO_BRACE))
            case Found(t, k) =>
              if Meaning(t, env).None? then r == Err(Unknown(t.name)) else r == Ok(Meaning(t, env).value) && size == k
  {
    hide FirstBrace;
    ghost var rest := f[i..];
    size := 1;
    if f[i] == '\\' {
      if i + 1 == |f| {
        return Ok("\\"), 1;
      }
      var c := f[i + 1];
      return Ok(if c == 'n' then "\n" else if c == 't' then "\t" else if c == 'r' then "\r" else [c]), 2;
    }
    if f[i] == '%' && i + 1 < |f| && f[i + 1] == '%' {
      return Ok("%"), 2;
    }
    if f[i] == '%' && i + 1 < |f| && f[i + 1] == '{' {
      var name, closed := ReadName(f, i + 2);
      assert rest[2..] == f[i + 2..] && name == rest[2..2 + FirstBrace(rest[2..])];
      if !closed {
        assert name == rest[2..];
        return Err(Unknown(name + NO_BRACE)), 1;
      }
      var value := env(name);
      if value.None? {
        return Err(Unknown(name)), 1;
      }
      return Ok(value.value), |name| + 3;
    }
    r := Ok([f[i]]);
  }

  /** The name up to its brace, or what there is of it. */
  method ReadName(f: string, from: nat) returns (name: string, closed: bool)
    requires from <= |f|
    ensures var p := FirstBrace(f[from..]);
            name == f[from..from + p] && (closed <==> from + p < |f|)
  {
    var j := from;
    name, closed := "", false;
    while j < |f| && f[j] != '}'
      invariant from <= j <= |f| && name == f[from..j] && '}' !in name
    {
      name, j := name + [f[j]], j + 1;
    }
    closed := j < |f|;
    var s := f[from..];
    if closed {
      BraceAt(name, f[j + 1..]);
      assert s == name + "}" + f[j + 1..];
    } else {
      assert s == name;
      NoBrace(name);
    }
  }

  lemma NoBrace(s: string)
    requires '}' !in s
    ensures FirstBrace(s) == |s|
  {
  }

  lemma PrefixNothing(r: Result<string, Unknown>)
    ensures Prefix("", r) == r
  {
    if r.Ok? {
      assert "" + r.value == r.value;
    }
  }

  lemma RenderedNothing(env: Env)
    ensures Rendered("", env) == Ok("")
  {
  }

  // ----- when it succeeds, and what it says when it does not

  predicate Known(t: Token, env: Env) {
    t.Var? ==> env(t.name).Some?
  }

  function Meanings(ts: seq<Token>, env: Env): string
    requires forall i :: 0 <= i < |ts| ==> Known(ts[i], env)
  {
    if ts == [] then ""
    else
      assert Known(ts[0], env);
      Meaning(ts[0], env).value + Meanings(ts[1..], env)
  }

  /** `k` is the first token that means nothing, or the number of tokens. */
  lemma {:induction false} FirstUnknown(ts: seq<Token>, env: Env) returns (k: nat)
    ensures k <= |ts| && forall i :: 0 <= i < k ==> Known(ts[i], env)
    ensures k < |ts| ==> !Known(ts[k], env) && RenderTokens(ts, env) == Err(Unknown(ts[k].name))
    ensures k == |ts| ==> RenderTokens(ts, env) == Ok(Meanings(ts, env))
  {
    if ts == [] {
      k := 0;
    } else if !Known(ts[0], env) {
      k := 0;
    } else {
      k := FirstUnknown(ts[1..], env);
      k := k + 1;
      assert forall i :: 1 <= i < |ts| ==> ts[i] == ts[1..][i - 1];
    }
  }

  /** Rendering succeeds if and only if the format is terminated and every name is known, and
      is then the concatenated meanings; otherwise it names the first unknown variable, or
      the unterminated one when all before it are known. */
  lemma RendersIff(f: string, env: Env) returns (k: nat)
    ensures var l := Lex(f);
            && k <= |l.ts| && (forall i :: 0 <= i < k ==> Known(l.ts[i], env))
            && (k < |l.ts| ==> !Known(l.ts[k], env) && Rendered(f, env) == Err(Unknown(l.ts[k].name)))
            && (k == |l.ts| ==>
                  Rendered(f, env) ==
                  if l.Tokens? then Ok(Meanings(l.ts, env)) else Err(Unknown(l.name + NO_BRACE)))
    ensures Rendered(f, env).Ok? <==> Lex(f).Tokens? && forall t :: t in Lex(f).ts ==> Known(t, env)
  {
    k := FirstUnknown(Lex(f).ts, env);
    if k < |Lex(f).ts| {
      assert Lex(f).ts[k] in Lex(f).ts;
    }
  }

  lemma {:induction false} RenderTokensAppend(a: seq<Token>, b: seq<Token>, env: Env)
    ensures RenderTokens(a + b, env) ==
            if RenderTokens(a, env).Err? then RenderTokens(a, env)
            else Prefix(RenderTokens(a, env).value, RenderTokens(b, env))
  {
    hide Meaning;
    if a == [] {
      assert a + b == b;
      PrefixNothing(RenderTokens(b, env));
    } else {
      assert (a + b)[1..] == a[1..] + b;
      RenderTokensAppend(a[1..], b, env);
      if Meaning(a[0], env).Some? && RenderTokens(a[1..], env).Ok? {
        PrefixTwice(Meaning(a[0], env).value, RenderTokens(a[1..], env).value, RenderTokens(b, env));
      }
    }
  }

  /** A format in two parts renders part by part, unless the left one ends in a backslash or
      percent sign that reads on. */
  lemma RenderConcat(a: string, b: string, env: Env)
    requires Lex(a).Tokens? && Separate(Lex(a).ts, b)
    ensures Rendered(a + b, env) ==
            if Rendered(a, env).Err? then Rendered(a, env) else Prefix(Rendered(a, env).value, Rendered(b, env))
  {
    hide Lex, RenderTokens;
    LexConcatIff(a, b);
    RenderTokensAppend(Lex(a).ts, Lex(b).ts, env);
  }

  /** Percent signs and backslashes written twice. */
  function Doubled(text: string): string {
    if text == "" then ""
    else (if text[0] == '%' || text[0] == '\\' then [text[0], text[0]] else [text[0]]) + Doubled(text[1..])
  }

  /** Any text, so doubled, renders to itself. */
  lemma {:induction false} DoubledRendersToItself(text: string, env: Env)
    ensures Rendered(Doubled(text), env) == Ok(text)
  {
    hide Lex, First;
    if text == "" {
      RenderedNothing(env);
    } else {
      DoubledRendersToItself(text[1..], env);
      var c := text[0];
      var t := if c == '%' then DoublePercent else if c == '\\' then Escape(c) else Plain(c);
      var rest := Doubled(text[1..]);
      FirstIsUnique(t, rest);
      assert Doubled(text) == Source(t) + rest;
      RenderedFirst(Doubled(text), env);
      assert (Source(t) + rest)[|Source(t)|..] == rest;
      assert [c] + text[1..] == text;
    }
  }

  // ----- the names

  datatype Timings = Timings(
    dns: nat, tcp: nat, tls: Option<nat>, ttfb: Option<nat>, connects: string, remote: Option<(string, string)>)

  datatype Facts = Facts(
    status: string, version: string, url: string, sizeDownload: string, total: nat,
    followed: string, lastTarget: Option<string>)

  const KNOWN: seq<string> := [
    "time_namelookup", "time_connect", "time_appconnect", "time_starttransfer", "time_total", "http_code",
    "http_version", "num_connects", "num_redirects", "redirect_url", "remote_ip", "remote_port", "size_download",
    "url_effective"]

  function OrZero(d: Option<nat>): nat {
    if d.Some? then d.value else 0
  }

  function OrEmpty(s: Option<string>): string {
    if s.Some? then s.value else ""
  }

  /** The value of a variable; times are milestones since the start, printed by `secs`. */
  function Value(name: string, t: Timings, f: Facts, secs: nat -> string): Option<string> {
    if name == "time_namelookup" then Some(secs(t.dns))
    else if name == "time_connect" then Some(secs(t.dns + t.tcp))
    else if name == "time_appconnect" then Some(secs(if t.tls.Some? then t.dns + t.tcp + t.tls.value else 0))
    else if name == "time_starttransfer" then Some(secs(OrZero(t.ttfb)))
    else if name == "time_total" then Some(secs(f.total))
    else if name == "http_code" then Some(f.status)
    else if name == "http_version" then Some(f.version)
    else if name == "num_connects" then Some(t.connects)
    else if name == "num_redirects" then Some(f.followed)
    else if name == "redirect_url" then Some(OrEmpty(f.lastTarget))
    else if name == "remote_ip" then Some(if t.remote.Some? then t.remote.value.0 else "")
    else if name == "remote_port" then Some(if t.remote.Some? then t.remote.value.1 else "")
    else if name == "size_download" then Some(f.sizeDownload)
    else if name == "url_effective" then Some(f.url)
    else None
  }

  /** The names answered are exactly the names listed. */
  lemma KnownIsWhatIsAnswered(name: string, t: Timings, f: Facts, secs: nat -> string)
    ensures Value(name, t, f, secs).Some? <==> name in KNOWN
  {
    assert KNOWN[0] == "time_namelookup" && KNOWN[1] == "time_connect" && KNOWN[2] == "time_appconnect";
    assert KNOWN[3] == "time_starttransfer" && KNOWN[4] == "time_total" && KNOWN[5] == "http_code";
    assert KNOWN[6] == "http_version" && KNOWN[7] == "num_connects" && KNOWN[8] == "num_redirects";
    assert KNOWN[9] == "redirect_url" && KNOWN[10] == "remote_ip" && KNOWN[11] == "remote_port";
    assert KNOWN[12] == "size_download" && KNOWN[13] == "url_effective" && |KNOWN| == 14;
  }

  /** Times are milestones since the start, each the one before and its own phase; a handshake that
      did not happen is at zero. */
  lemma TimesStandFor(t: Timings, f: Facts, secs: nat -> string)
    ensures Value("time_namelookup", t, f, secs) == Some(secs(t.dns))
    ensures Value("time_connect", t, f, secs) == Some(secs(t.dns + t.tcp))
    ensures Value("time_appconnect", t, f, secs) == Some(secs(if t.tls.Some? then t.dns + t.tcp + t.tls.value else 0))
  {
  }

  lemma LaterTimesStandFor(t: Timings, f: Facts, secs: nat -> string)
    ensures Value("time_starttransfer", t, f, secs) == Some(secs(if t.ttfb.Some? then t.ttfb.value else 0))
    ensures Value("time_total", t, f, secs) == Some(secs(f.total))
    ensures Value("http_code", t, f, secs) == Some(f.status)
  {
  }

  lemma CountsStandFor(t: Timings, f: Facts, secs: nat -> string)
    ensures Value("http_version", t, f, secs) == Some(f.version)
    ensures Value("num_connects", t, f, secs) == Some(t.connects)
    ensures Value("num_redirects", t, f, secs) == Some(f.followed)
  {
  }

  lemma PlacesStandFor(t: Timings, f: Facts, secs: nat -> string)
    ensures Value("redirect_url", t, f, secs) == Some(if f.lastTarget.Some? then f.lastTarget.value else "")
    ensures Value("remote_ip", t, f, secs) == Some(if t.remote.Some? then t.remote.value.0 else "")
  {
  }

  lemma SizesStandFor(t: Timings, f: Facts, secs: nat -> string)
    ensures Value("remote_port", t, f, secs) == Some(if t.remote.Some? then t.remote.value.1 else "")
    ensures Value("size_download", t, f, secs) == Some(f.sizeDownload)
    ensures Value("url_effective", t, f, secs) == Some(f.url)
  {
  }

  /** The format character by character: backslash escapes, doubled percent signs, variables in
      braces, and everything else as it stands. */
  lemma RendersByCharacter(f: string, env: Env)
    ensures f == "" ==> Rendered(f, env) == Ok("")
    ensures f == "\\" ==> Rendered(f, env) == Ok("\\")
    ensures |f| >= 2 && f[0] == '\\' ==>
              var c := if f[1] == 'n' then '\n' else if f[1] == 't' then '\t' else if f[1] == 'r' then '\r' else f[1];
              Rendered(f, env) == Prefix([c], Rendered(f[2..], env))
    ensures "%%" <= f ==> Rendered(f, env) == Prefix("%", Rendered(f[2..], env))
    ensures f != "" && f[0] == '%' && !("%%" <= f) && !("%{" <= f) ==>
              Rendered(f, env) == Prefix("%", Rendered(f[1..], env))
    ensures f != "" && f[0] != '\\' && f[0] != '%' ==> Rendered(f, env) == Prefix([f[0]], Rendered(f[1..], env))
  {
    hide Lex, RenderTokens, Rendered, FirstBrace;
    if f == "" {
      RenderedNothing(env);
    } else {
      RenderedFirst(f, env);
      if |f| == 1 {
        assert f[1..] == "";
        RenderedNothing(env);
        PrefixOf("\\");
      }
    }
  }

  lemma PrefixOf(m: string)
    ensures Prefix(m, Ok("")) == Ok(m)
  {
    assert m + "" == m;
  }

  /** A variable runs to the first closing brace; one that has none is reported as such. */
  lemma RendersVariable(name: string, rest: string, env: Env)
    requires '}' !in name
    ensures Rendered("%{" + name + "}" + rest, env) ==
            if env(name).None? then Err(Unknown(name)) else Prefix(env(name).value, Rendered(rest, env))
    ensures Rendered("%{" + name, env) == Err(Unknown(name + " (unterminated: no `}`)"))
  {
    hide Lex, RenderTokens, Rendered, First;
    var f := "%{" + name + "}" + rest;
    FirstIsUnique(Var(name), rest);
    RenderedFirst(f, env);
    assert f[|Source(Var(name))|..] == rest;
    RenderedFirst("%{" + name, env);
    OpenIsCut(name);
  }

  lemma OpenIsCut(name: string)
    requires '}' !in name
    ensures First("%{" + name) == Cut(name)
  {
    var f := "%{" + name;
    assert f[0] == '%' && f[1] == '{' && f[2..] == name;
    NoBrace(name);
  }
}
