/** The `--resolve HOST:PORT:ADDR` argument and its short form `HOST:ADDR` (hclient-cli, `run`). */
module Resolve {
  import opened Wrappers

  type IpAddr = string

  /** Whether a text is an IP address, and which. */
  type IpText = string -> Option<IpAddr>

  datatype Problem = Unclosed | NoColon | NotAnAddress(text: string) | NoHost

  // ----- the string operations

  function RFind(s: string, c: char): (at: Option<nat>)
    ensures at.None? <==> c !in s
    ensures at.Some? ==> at.value < |s| && s[at.value] == c && c !in s[at.value + 1..]
  {
    if s == [] then None
    else if s[|s| - 1] == c then Some(|s| - 1)
    else
      assert s == s[..|s| - 1] + [s[|s| - 1]];
      var at := RFind(s[..|s| - 1], c);
      assert at.Some? ==> s[at.value + 1..] == s[..|s| - 1][at.value + 1..] + [s[|s| - 1]];
      at
  }

  function TrimEnd(s: string, c: char): (t: string)
    ensures t <= s && (t == [] || t[|t| - 1] != c)
    ensures s == t + Repeat(c, |s| - |t|)
  {
    if s == [] || s[|s| - 1] != c then s
    else
      assert s == s[..|s| - 1] + [c];
      TrimEnd(s[..|s| - 1], c)
  }

  function Repeat(c: char, n: nat): string {
    seq(n, _ => c)
  }

  predicate Digits(s: string) {
    s != [] && forall i :: 0 <= i < |s| ==> '0' <= s[i] <= '9'
  }

  lemma DigitsAre(s: string)
    ensures Digits(s) <==> s != [] && forall i :: 0 <= i < |s| ==> s[i] in "0123456789"
  {
  }

  function WithoutPort(head: string): string {
    match RFind(head, ':')
    case None => head
    case Some(at) => if Digits(head[at + 1..]) then head[..at] else head
  }

  // ----- parse_resolve

  function HeadAndAddress(spec: string): Result<(string, string), Problem> {
    match RFind(spec, '[')
    case Some(open) =>
      if spec[|spec| - 1] != ']' then Err(Unclosed)
      else Ok((TrimEnd(spec[..open], ':'), spec[open + 1..|spec| - 1]))
    case None =>
      match RFind(spec, ':')
      case None => Err(NoColon)
      case Some(at) => Ok((spec[..at], spec[at + 1..]))
  }

  function ParseResolve(spec: string, ip: IpText): Result<(string, IpAddr), Problem> {
    match HeadAndAddress(spec)
    case Err(e) => Err(e)
    case Ok((head, text)) =>
      match ip(text)
      case None => Err(NotAnAddress(text))
      case Some(addr) =>
        var host := WithoutPort(head);
        if host == [] then Err(NoHost) else Ok((host, addr))
  }

  // ----- the grammar

  /** `HEAD:ADDR`, with no bracket anywhere. */
  ghost predicate Bare(spec: string, head: string, text: string) {
    spec == head + ":" + text && ':' !in text && '[' !in spec
  }

  /** `HEAD`, any number of colons, and a bracketed address. */
  ghost predicate Bracketed(spec: string, head: string, text: string) {
    && (head == [] || head[|head| - 1] != ':') && '[' !in text
    && exists n: nat :: spec == head + Repeat(':', n) + "[" + text + "]"
  }

  ghost predicate Spells(spec: string, head: string, text: string) {
    Bare(spec, head, text) || Bracketed(spec, head, text)
  }

  ghost predicate HasPort(head: string, host: string) {
    exists port :: Digits(port) && head == host + ":" + port
  }

  /** `HOST:PORT` stands for the host, and so does a head that is not of that form. */
  ghost predicate Names(head: string, host: string) {
    HasPort(head, host) || (head == host && !exists h :: HasPort(head, h))
  }

  /** A split at a letter that the right part does not hold is the one `RFind` makes. */
  lemma LastIsAt(s: string, c: char, left: string, right: string)
    requires s == left + [c] + right && c !in right
    ensures RFind(s, c) == Some(|left|) && s[..|left|] == left && s[|left| + 1..] == right
  {
    assert s[|left|] == c;
  }

  /** Trimming is the one way to split off trailing copies of a letter. */
  lemma {:induction false} TrimIsUnique(t: string, c: char, n: nat)
    requires t == [] || t[|t| - 1] != c
    ensures TrimEnd(t + Repeat(c, n), c) == t
  {
    var s := t + Repeat(c, n);
    if n == 0 {
      assert s == t;
    } else {
      assert s[..|s| - 1] == t + Repeat(c, n - 1);
      TrimIsUnique(t, c, n - 1);
    }
  }

  /** The split is exact: a head and a text come out of a spec if and only if they spell it. */
  lemma SplitIff(spec: string, head: string, text: string)
    ensures HeadAndAddress(spec) == Ok((head, text)) <==> Spells(spec, head, text)
  {
    if HeadAndAddress(spec) == Ok((head, text)) {
      SplitSpells(spec, head, text);
    }
    if Spells(spec, head, text) {
      SpelledSplits(spec, head, text);
    }
  }

  lemma SplitSpells(spec: string, head: string, text: string)
    requires HeadAndAddress(spec) == Ok((head, text))
    ensures Spells(spec, head, text)
  {
    if '[' in spec {
      var open := RFind(spec, '[').value;
      var colons := spec[..open];
      var n := |colons| - |head|;
      assert colons == head + Repeat(':', n);
      assert open < |spec| - 1;
      assert forall k :: 0 <= k < |text| ==> text[k] == spec[open + 1..][k];
      assert spec == head + Repeat(':', n) + "[" + text + "]";
    } else {
      assert spec == head + ":" + text;
    }
  }

  lemma SpelledSplits(spec: string, head: string, text: string)
    requires Spells(spec, head, text)
    ensures HeadAndAddress(spec) == Ok((head, text))
  {
    if Bare(spec, head, text) {
      LastIsAt(spec, ':', head, text);
    } else {
      var n: nat :| spec == head + Repeat(':', n) + "[" + text + "]";
      var left := head + Repeat(':', n);
      assert spec == left + ['['] + (text + "]");
      LastIsAt(spec, '[', left, text + "]");
      TrimIsUnique(head, ':', n);
      assert spec[|left| + 1..|spec| - 1] == text;
    }
  }

  /** A head names one host, the one the port is taken from. */
  lemma NamesIff(head: string, host: string)
    ensures Names(head, host) <==> host == WithoutPort(head)
  {
    hide WithoutPort, HasPort;
    forall h | HasPort(head, h)
      ensures h == WithoutPort(head) && h != head
    {
      PortIsDropped(head, h);
    }
    if WithoutPort(head) != head {
      DroppedIsPort(head);
    }
  }

  lemma PortIsDropped(head: string, host: string)
    requires HasPort(head, host)
    ensures WithoutPort(head) == host != head
  {
    var port :| Digits(port) && head == host + ":" + port;
    LastIsAt(head, ':', host, port);
  }

  lemma DroppedIsPort(head: string)
    requires WithoutPort(head) != head
    ensures HasPort(head, WithoutPort(head))
  {
    hide RFind;
    var at := RFind(head, ':').value;
    assert head == head[..at] + ":" + head[at + 1..];
  }

  /** The whole grammar: what is accepted, and as what. */
  lemma AcceptedIff(spec: string, ip: IpText, host: string, addr: IpAddr)
    ensures ParseResolve(spec, ip) == Ok((host, addr)) <==>
            host != [] && exists head, text :: Spells(spec, head, text) && ip(text) == Some(addr) && Names(head, host)
  {
    hide Spells, Names, WithoutPort;
    if ParseResolve(spec, ip) == Ok((host, addr)) {
      var (head, text) := HeadAndAddress(spec).value;
      SplitIff(spec, head, text);
      NamesIff(head, host);
    }
    if host != [] && exists head, text :: Spells(spec, head, text) && ip(text) == Some(addr) && Names(head, host) {
      var head, text :| Spells(spec, head, text) && ip(text) == Some(addr) && Names(head, host);
      SplitIff(spec, head, text);
      NamesIff(head, host);
    }
  }

  /** Why a spec is refused: a bracket that is not closed at the end, no colon at all, a text
      that is no address, or no host in front of one that is. */
  lemma RefusedIff(spec: string, ip: IpText)
    ensures ParseResolve(spec, ip) == Err(Unclosed) <==> '[' in spec && spec[|spec| - 1] != ']'
    ensures ParseResolve(spec, ip) == Err(NoColon) <==> '[' !in spec && ':' !in spec
    ensures forall head, text :: Spells(spec, head, text) ==>
              && (ParseResolve(spec, ip) == Err(NotAnAddress(text)) <==> ip(text) == None)
              && (ParseResolve(spec, ip) == Err(NoHost) <==> ip(text).Some? && Names(head, ""))
  {
    hide Spells, Names, WithoutPort, TrimEnd;
    forall head, text | Spells(spec, head, text)
      ensures HeadAndAddress(spec) == Ok((head, text))
      ensures Names(head, "") <==> WithoutPort(head) == ""
    {
      SplitIff(spec, head, text);
      NamesIff(head, "");
    }
  }

  // ----- with and without the port

  function Address(text: string, bracketed: bool): string {
    if bracketed then "[" + text + "]" else text
  }

  function Short(host: string, text: string, bracketed: bool): string {
    host + ":" + Address(text, bracketed)
  }

  function Long(host: string, port: string, text: string, bracketed: bool): string {
    host + ":" + port + ":" + Address(text, bracketed)
  }

  /** What an address may look like: no bracket, and no colon unless brackets go round it. */
  predicate AddressLike(text: string, bracketed: bool) {
    '[' !in text && ']' !in text && (bracketed || ':' !in text)
  }

  /** What of the host the short form needs beyond the long one. */
  ghost predicate Unambiguous(host: string, bracketed: bool) {
    (!exists h :: HasPort(host, h)) && (bracketed ==> host == [] || host[|host| - 1] != ':')
  }

  function Outcome(host: string, text: string, ip: IpText): Result<(string, IpAddr), Problem> {
    match ip(text)
    case None => Err(NotAnAddress(text))
    case Some(addr) => if host == [] then Err(NoHost) else Ok((host, addr))
  }

  lemma BracketedShortSplits(head: string, text: string)
    requires '[' !in text
    ensures HeadAndAddress(head + ":" + "[" + text + "]") == Ok((TrimEnd(head, ':'), text))
  {
    hide HeadAndAddress, TrimEnd, Bare;
    var spec, trimmed := head + ":" + "[" + text + "]", TrimEnd(head, ':');
    var n := |head| - |trimmed| + 1;
    assert head + ":" == trimmed + Repeat(':', n) by {
      assert Repeat(':', n) == Repeat(':', n - 1) + ":";
    }
    assert Bracketed(spec, trimmed, text);
    SplitIff(spec, trimmed, text);
  }

  lemma BareShortSplits(head: string, text: string)
    requires '[' !in head && '[' !in text && ':' !in text
    ensures HeadAndAddress(head + ":" + text) == Ok((head, text))
  {
    hide HeadAndAddress, Bracketed;
    var spec := head + ":" + text;
    assert Bare(spec, head, text);
    SplitIff(spec, head, text);
  }

  lemma ShortSplits(head: string, text: string, bracketed: bool)
    requires AddressLike(text, bracketed) && (bracketed || '[' !in head)
    ensures HeadAndAddress(Short(head, text, bracketed)) == Ok((if bracketed then TrimEnd(head, ':') else head, text))
  {
    hide HeadAndAddress, TrimEnd;
    if bracketed {
      BracketedShortSplits(head, text);
      assert Short(head, text, true) == head + ":" + "[" + text + "]";
    } else {
      BareShortSplits(head, text);
    }
  }

  /** A bare address closes no bracket. */
  lemma BareCannotClose(head: string, text: string)
    requires AddressLike(text, false) && '[' in head
    ensures HeadAndAddress(Short(head, text, false)) == Err(Unclosed)
  {
    var spec := Short(head, text, false);
    assert spec[..|head|] == head;
    assert spec[|spec| - 1] == if text == [] then ':' else text[|text| - 1];
  }

  /** What the short form comes to, for any head at all. */
  lemma ShortParses(head: string, text: string, bracketed: bool, ip: IpText)
    requires AddressLike(text, bracketed)
    ensures ParseResolve(Short(head, text, bracketed), ip) ==
            if !bracketed && '[' in head then Err(Unclosed)
            else Outcome(WithoutPort(if bracketed then TrimEnd(head, ':') else head), text, ip)
  {
    hide HeadAndAddress, TrimEnd, WithoutPort, Short;
    if !bracketed && '[' in head {
      BareCannotClose(head, text);
    } else {
      ShortSplits(head, text, bracketed);
    }
  }

  /** The port is dropped: the long form comes to the host before it, whatever the host ends in. */
  lemma LongParses(host: string, port: string, text: string, bracketed: bool, ip: IpText)
    requires AddressLike(text, bracketed) && Digits(port)
    ensures ParseResolve(Long(host, port, text, bracketed), ip) ==
            if !bracketed && '[' in host then Err(Unclosed) else Outcome(host, text, ip)
  {
    hide ParseResolve;
    var head := host + ":" + port;
    assert Long(host, port, text, bracketed) == Short(head, text, bracketed);
    ShortParses(head, text, bracketed, ip);
    assert head[|head| - 1] == port[|port| - 1];
    LastIsAt(head, ':', host, port);
  }

  /** The two forms agree, in the host, the address and every error, if and only if the
      address or the bracket is refused in both or the host can do without the port. */
  lemma PortMakesNoDifferenceIff(host: string, port: string, text: string, bracketed: bool, ip: IpText)
    requires AddressLike(text, bracketed) && Digits(port)
    ensures ParseResolve(Short(host, text, bracketed), ip) == ParseResolve(Long(host, port, text, bracketed), ip) <==>
            ip(text).None? || (!bracketed && '[' in host) || Unambiguous(host, bracketed)
  {
    ShortParses(host, text, bracketed, ip);
    LongParses(host, port, text, bracketed, ip);
    hide ParseResolve;
    var head := if bracketed then TrimEnd(host, ':') else host;
    NamesIff(head, WithoutPort(head));
  }
}
