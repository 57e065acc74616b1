/** DNS over HTTPS with a fallback: a chain of resolvers of any depth, each level's exchange
    an oracle. */
module DohChain {
  import opened Wrappers

  type Record = string

  datatype Query = A | Aaaa | Https

  datatype Answer = Answer(addrs: seq<Record>, endpoints: seq<Record>)

  datatype Addr = V4(text: string) | V6(text: string)

  type Records = seq<Result<Record, string>>

  const RTYPE_A: nat := 1
  const RTYPE_AAAA: nat := 28
  const RTYPE_HTTPS: nat := 65

  type Exchange = (string, Query) -> Result<Answer, string>

  /** `Bottom` is any other resolver; with nothing ever to say it is no fallback at all. */
  datatype Resolver = Bottom(lookup: (string, nat) -> Records) | Doh(exchange: Exchange, fallback: Resolver)

  const NO_FALLBACK := Bottom((name, rtype) => [])

  /** The records, and which level asked what to get them. */
  datatype Looked = Looked(records: Records, asked: seq<(nat, Query)>)

  function AllOk(rs: seq<Record>): Records {
    seq(|rs|, i requires 0 <= i < |rs| => Ok(rs[i]))
  }

  function FamilyQuery(v6: bool): Query {
    if v6 then Aaaa else A
  }

  function FamilyRtype(v6: bool): nat {
    if v6 then RTYPE_AAAA else RTYPE_A
  }

  /** `literal` parses an IP literal, brackets and all. */
  function Addrs(r: Resolver, literal: string -> Option<Addr>, name: string, v6: bool, level: nat): Looked
    requires r.Doh?
    decreases r, 0
  {
    if literal(name).Some? then
      var addr := literal(name).value;
      Looked(if addr.V6? == v6 then [Ok(addr.text)] else [], [])
    else
      var q := FamilyQuery(v6);
      match r.exchange(name, q)
      case Ok(answer) => Looked(AllOk(answer.addrs), [(level, q)])
      case Err(e) =>
        var recovered := Lookup(r.fallback, literal, name, FamilyRtype(v6), level + 1);
        Looked(if recovered.records == [] then [Err(e)] else recovered.records, [(level, q)] + recovered.asked)
  }

  function Lookup(r: Resolver, literal: string -> Option<Addr>, name: string, rtype: nat, level: nat): Looked
    decreases r, 1
  {
    match r
    case Bottom(lookup) => Looked(lookup(name, rtype), [])
    case Doh(exchange, _) =>
      if rtype == RTYPE_A then Addrs(r, literal, name, false, level)
      else if rtype == RTYPE_AAAA then Addrs(r, literal, name, true, level)
      else if rtype == RTYPE_HTTPS then
        if literal(name).Some? then Looked([], [])
        else
          match exchange(name, Https)
          case Ok(answer) => Looked(AllOk(answer.endpoints), [(level, Https)])
          case Err(e) => Looked([Err(e)], [(level, Https)])
      else Looked([], [])
  }

  // ----- the chain laid out

  function Depth(r: Resolver): nat {
    if r.Bottom? then 0 else 1 + Depth(r.fallback)
  }

  /** The resolver `n` levels down. */
  function Down(r: Resolver, n: nat): (d: Resolver)
    requires n <= Depth(r)
    ensures d.Bottom? <==> n == Depth(r)
  {
    if n == 0 then r else Down(r.fallback, n - 1)
  }

  predicate FailsAt(r: Resolver, n: nat, name: string, q: Query)
    requires n <= Depth(r)
  {
    var d := Down(r, n);
    d.Doh? && d.exchange(name, q).Err?
  }

  /** The first level that does not fail, the bottom being one. */
  function FirstToAnswer(r: Resolver, name: string, q: Query): (i: nat)
    ensures i <= Depth(r) && !FailsAt(r, i, name, q)
    ensures forall k :: 0 <= k < i ==> FailsAt(r, k, name, q)
  {
    if r.Bottom? || r.exchange(name, q).Ok? then 0
    else
      var i := FirstToAnswer(r.fallback, name, q);
      assert forall k :: 1 <= k <= i + 1 ==> FailsAt(r, k, name, q) == FailsAt(r.fallback, k - 1, name, q);
      i + 1
  }

  /** What a level that does not fail has to say. */
  function Said(d: Resolver, name: string, v6: bool): Records
    requires d.Doh? ==> d.exchange(name, FamilyQuery(v6)).Ok?
  {
    match d
    case Bottom(lookup) => lookup(name, FamilyRtype(v6))
    case Doh(exchange, _) => AllOk(exchange(name, FamilyQuery(v6)).value.addrs)
  }

  /** Levels `level`, `level + 1`, ... each asked once. */
  function AskedFrom(level: nat, count: nat, q: Query): seq<(nat, Query)> {
    seq(count, k requires 0 <= k < count => (level + k, q))
  }

  /** The closed form of an address lookup: the first level to answer, or the bottom, is the
      answer when it says anything; when it says nothing the answer is the error of the level
      just above it, or nothing when there is none above. Each level down to it is asked
      once, and none below. */
  lemma {:induction false} AddressLookupClosedForm(
      r: Resolver, literal: string -> Option<Addr>, name: string, v6: bool, level: nat)
    requires literal(name).None?
    ensures var q := FamilyQuery(v6);
            var i := FirstToAnswer(r, name, q);
            var said := Said(Down(r, i), name, v6);
            var looked := Lookup(r, literal, name, FamilyRtype(v6), level);
            && looked.records == (if said != [] || i == 0 then said
                                  else assert FailsAt(r, i - 1, name, q); [Err(Down(r, i - 1).exchange(name, q).error)])
            && looked.asked == AskedFrom(level, if i < Depth(r) then i + 1 else i, q)
    decreases r
  {
    var q := FamilyQuery(v6);
    if r.Doh? {
      if r.exchange(name, q).Err? {
        hide AskedFrom;
        AddressLookupClosedForm(r.fallback, literal, name, v6, level + 1);
        var i := FirstToAnswer(r.fallback, name, q);
        assert Down(r, i + 1) == Down(r.fallback, i);
        assert i > 0 ==> Down(r, i) == Down(r.fallback, i - 1);
        AskedOneMore(level, if i < Depth(r.fallback) then i + 1 else i, q);
      } else {
        assert AskedFrom(level, 1, q) == [(level, q)];
      }
    }
  }

  lemma AskedOneMore(level: nat, n: nat, q: Query)
    ensures [(level, q)] + AskedFrom(level + 1, n, q) == AskedFrom(level, n + 1, q)
  {
  }

  /** An IP literal asks nobody at any level: it is its own one record in its own family, and
      there is nothing else to know of it. */
  lemma LiteralAsksNobody(r: Resolver, literal: string -> Option<Addr>, name: string, rtype: nat, level: nat)
    requires r.Doh? && literal(name).Some?
    ensures Lookup(r, literal, name, rtype, level).asked == []
    ensures Lookup(r, literal, name, rtype, level).records ==
            if (rtype == 1 && literal(name).value.V4?) || (rtype == 28 && literal(name).value.V6?)
            then [Ok(literal(name).value.text)] else []
  {
  }

  /** An address lookup asks for the addresses of its own family: type A is 1 and asks A, type
      AAAA is 28 and asks AAAA; each answers with what the server gave, or goes down a level. */
  lemma AddressLookupAsks(
      exchange: Exchange, f: Resolver, literal: string -> Option<Addr>, name: string, v6: bool, level: nat)
    requires literal(name).None?
    ensures var rtype, q := if v6 then 28 else 1, if v6 then Aaaa else A;
            var looked := Lookup(Doh(exchange, f), literal, name, rtype, level);
            && looked.asked != [] && looked.asked[0] == (level, q)
            && match exchange(name, q) {
                 case Ok(answer) =>
                   && looked.asked == [(level, q)] && |looked.records| == |answer.addrs|
                   && forall i :: 0 <= i < |answer.addrs| ==> looked.records[i] == Ok(answer.addrs[i])
                 case Err(e) =>
                   var below := Lookup(f, literal, name, rtype, level + 1);
                   && looked.asked == [(level, q)] + below.asked
                   && looked.records == if below.records == [] then [Err(e)] else below.records
               }
  {
  }

  /** HTTPS records, type 65, are the endpoints the top level gives or its one error, and no
      fallback can change them. A type there is no query for is answered with nothing. */
  lemma HttpsIsTopLevelOnly(
      exchange: Exchange, f: Resolver, literal: string -> Option<Addr>, name: string, rtype: nat, level: nat)
    requires literal(name).None? && rtype != 1 && rtype != 28
    ensures var looked := Lookup(Doh(exchange, f), literal, name, rtype, level);
            if rtype != 65 then looked == Looked([], [])
            else
              && looked.asked == [(level, Https)]
              && match exchange(name, Https) {
                   case Ok(answer) =>
                     && |looked.records| == |answer.endpoints|
                     && forall i :: 0 <= i < |answer.endpoints| ==> looked.records[i] == Ok(answer.endpoints[i])
                   case Err(e) => looked.records == [Err(e)]
                 }
  {
  }

  /** Ending in no fallback, a chain is silent only if its first answer is an empty one; it
      never turns a failure into silence. */
  lemma FailureIsNeverSilent(r: Resolver, literal: string -> Option<Addr>, name: string, v6: bool, level: nat)
    requires r.Doh? && Down(r, Depth(r)) == NO_FALLBACK && literal(name).None?
    ensures Lookup(r, literal, name, FamilyRtype(v6), level).records == [] <==>
            r.exchange(name, FamilyQuery(v6)).Ok? && r.exchange(name, FamilyQuery(v6)).value.addrs == []
  {
    AddressLookupClosedForm(r, literal, name, v6, level);
  }
}
