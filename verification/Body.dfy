/** Request bodies and their reduction to what a transport sends (hclient-core, `body`). */
module Body {
  import opened Wrappers

  type StreamId = nat

  type FactoryId = nat

  /** What each factory makes, the same every time it is called. A factory may make a body
      with any other factory in it, itself included, so a chain may have no end. */
  type Factories = FactoryId -> RequestBody

  datatype RequestBody = Empty | Full(bytes: Bytes) | Rewindable(factory: FactoryId) | Streaming(stream: StreamId)

  datatype Reduced = NoBody | InMemory(bytes: Bytes) | Pumped(stream: StreamId)

  datatype RewindTooDeep = RewindTooDeep

  datatype RetryKind = Free | ViaFactory | Impossible

  datatype BodyView = ViewEmpty | ViewBytes(bytes: Bytes) | Opaque

  const MAX_REWIND_DEPTH: nat := 16

  function RetryKindOf(body: RequestBody): RetryKind {
    match body
    case Empty | Full(_) => Free
    case Rewindable(_) => ViaFactory
    case Streaming(_) => Impossible
  }

  predicate MayReplay(kind: RetryKind) {
    match kind
    case Free | ViaFactory => true
    case Impossible => false
  }

  function Rewind(make: Factories, body: RequestBody): Option<RequestBody> {
    match body
    case Empty => Some(Empty)
    case Full(bytes) => Some(Full(bytes))
    case Rewindable(f) => Some(make(f))
    case Streaming(_) => None
  }

  function View(body: RequestBody): BodyView {
    match body
    case Empty => ViewEmpty
    case Full(bytes) => ViewBytes(bytes)
    case Rewindable(_) | Streaming(_) => Opaque
  }

  function SizeHint(body: RequestBody): Option<nat> {
    match body
    case Empty => Some(0)
    case Full(bytes) => Some(|bytes|)
    case _ => None
  }

  // ----- what a body means

  /** The body after `n` factory calls, or as many as there are to make. */
  ghost function After(make: Factories, body: RequestBody, n: nat): RequestBody
    decreases n
  {
    if n == 0 || !body.Rewindable? then body else After(make, make(body.factory), n - 1)
  }

  /** What goes on the wire: bytes or a stream. */
  datatype Content = Sent(bytes: Bytes) | Streamed(stream: StreamId)

  ghost function Holds(body: RequestBody): Content
    requires !body.Rewindable?
  {
    match body
    case Empty => Sent([])
    case Full(bytes) => Sent(bytes)
    case Streaming(s) => Streamed(s)
  }

  ghost function Means(r: Reduced): Content {
    match r
    case NoBody => Sent([])
    case InMemory(bytes) => Sent(bytes)
    case Pumped(s) => Streamed(s)
  }

  /** The one way to write a content down, `NoBody` standing for no bytes. */
  ghost function Reduction(make: Factories, body: RequestBody): (r: Result<Reduced, RewindTooDeep>)
    ensures r.Ok? <==> !After(make, body, MAX_REWIND_DEPTH - 1).Rewindable?
    ensures r.Ok? ==> Means(r.value) == Holds(After(make, body, MAX_REWIND_DEPTH - 1)) && r.value != InMemory([])
  {
    var last := After(make, body, MAX_REWIND_DEPTH - 1);
    if last.Rewindable? then Err(RewindTooDeep)
    else
      match Holds(last)
      case Sent(bytes) => Ok(if bytes == [] then NoBody else InMemory(bytes))
      case Streamed(s) => Ok(Pumped(s))
  }

  // ----- reduce

  /** Accepts a body that needs fewer than sixteen factory calls, makes just those, and gives
      up at the sixteenth. */
  method Reduce(make: Factories, self: RequestBody) returns (r: Result<Reduced, RewindTooDeep>, calls: nat)
    ensures r == Reduction(make, self)
    ensures calls <= MAX_REWIND_DEPTH && (r.Ok? <==> calls < MAX_REWIND_DEPTH)
    ensures var end := CallsToEnd(make, self);
            calls == if end.Some? && end.value < MAX_REWIND_DEPTH then end.value else MAX_REWIND_DEPTH
  {
    hide After, CallsToEnd;
    var body := self;
    calls := 0;
    AfterOne(make, self, 0);
    for i := 0 to MAX_REWIND_DEPTH
      invariant calls == i && body == After(make, self, i)
      invariant forall k :: 0 <= k < i ==> After(make, self, k).Rewindable?
    {
      AfterOne(make, self, i);
      if !body.Rewindable? {
        AfterSettled(make, self, i, MAX_REWIND_DEPTH - 1);
        SettlesIff(make, self, i);
        if i > 0 {
          SettlesIff(make, self, i - 1);
        }
      }
      match body {
        case Empty => return Ok(NoBody), calls;
        case Full(bytes) =>
          if bytes == [] {
            return Ok(NoBody), calls;
          }
          return Ok(InMemory(bytes)), calls;
        case Streaming(s) => return Ok(Pumped(s)), calls;
        case Rewindable(f) =>
          body := make(f);
          calls := calls + 1;
      }
    }
    SettlesIff(make, self, MAX_REWIND_DEPTH - 1);
    return Err(RewindTooDeep), calls;
  }

  lemma {:induction false} AfterAdds(make: Factories, body: RequestBody, m: nat, n: nat)
    ensures After(make, After(make, body, m), n) == After(make, body, m + n)
    decreases m
  {
    if m != 0 && body.Rewindable? {
      AfterAdds(make, make(body.factory), m - 1, n);
    }
  }

  lemma AfterOne(make: Factories, body: RequestBody, n: nat)
    ensures After(make, body, 0) == body
    ensures var b := After(make, body, n);
            After(make, body, n + 1) == if b.Rewindable? then make(b.factory) else b
  {
    AfterAdds(make, body, n, 1);
    var b := After(make, body, n);
    assert b.Rewindable? ==> After(make, b, 1) == After(make, make(b.factory), 0);
  }

  lemma AfterSettled(make: Factories, body: RequestBody, m: nat, n: nat)
    requires m <= n && !After(make, body, m).Rewindable?
    ensures After(make, body, n) == After(make, body, m)
  {
    AfterAdds(make, body, m, n - m);
  }

  // ----- rewinding

  /** The `n`th of successive rewinds, each of the body the one before gave. */
  ghost function Rewinds(make: Factories, body: RequestBody, n: nat): Option<RequestBody>
    decreases n
  {
    if n == 0 then Some(body)
    else
      match Rewind(make, body)
      case Some(next) => Rewinds(make, next, n - 1)
      case None => None
  }

  /** Rewinding is walking the chain, and stops only at a stream: `n` rewinds are to be had
      if and only if the first `n - 1` did not reach one. */
  lemma {:induction false} RewindsWalkTheChain(make: Factories, body: RequestBody, n: nat)
    ensures Rewinds(make, body, n).Some? <==> n == 0 || !After(make, body, n - 1).Streaming?
    ensures Rewinds(make, body, n).Some? ==> Rewinds(make, body, n).value == After(make, body, n)
    decreases n
  {
    if n > 0 && Rewind(make, body).Some? {
      var next := Rewind(make, body).value;
      RewindsWalkTheChain(make, next, n - 1);
      if !body.Rewindable? {
        assert next == body;
      }
    }
  }

  /** However often an accepted body is rewound, it reduces to the same thing. A refused one
      stays refused if and only if the chain is still going when the rewinds and one more
      reduction are done with it. */
  lemma RewindsReduceAlikeIff(make: Factories, body: RequestBody, n: nat)
    requires Rewinds(make, body, n).Some?
    ensures Reduction(make, body).Ok? ==> Reduction(make, Rewinds(make, body, n).value) == Reduction(make, body)
    ensures Reduction(make, Rewinds(make, body, n).value) == Reduction(make, body) <==>
            || !After(make, body, MAX_REWIND_DEPTH - 1).Rewindable?
            || After(make, body, n + MAX_REWIND_DEPTH - 1).Rewindable?
  {
    hide After;
    RewindsWalkTheChain(make, body, n);
    AfterAdds(make, body, n, MAX_REWIND_DEPTH - 1);
    if !After(make, body, MAX_REWIND_DEPTH - 1).Rewindable? {
      AfterSettled(make, body, MAX_REWIND_DEPTH - 1, n + MAX_REWIND_DEPTH - 1);
    }
  }

  /** A body may be replayed exactly when it can be rewound. */
  lemma MayReplayIffRewinds(make: Factories, body: RequestBody)
    ensures MayReplay(RetryKindOf(body)) <==> Rewind(make, body).Some?
  {
  }

  /** The answer is for the body in hand only: a body can be rewound for ever if and only if
      its chain never comes to a stream. */
  lemma RewindsForeverIff(make: Factories, body: RequestBody)
    ensures RewindsForever(make, body) <==> NeverStreams(make, body)
  {
    hide After, Rewinds;
    if RewindsForever(make, body) {
      forall n: nat
        ensures !After(make, body, n).Streaming?
      {
        assert Rewinds(make, body, n + 1).Some?;
        RewindsWalkTheChain(make, body, n + 1);
      }
    }
    if NeverStreams(make, body) {
      forall n: nat
        ensures Rewinds(make, body, n).Some?
      {
        RewindsWalkTheChain(make, body, n);
      }
    }
  }

  ghost predicate RewindsForever(make: Factories, body: RequestBody) {
    forall n: nat :: Rewinds(make, body, n).Some?
  }

  ghost predicate NeverStreams(make: Factories, body: RequestBody) {
    forall n: nat :: !After(make, body, n).Streaming?
  }

  /** What a look shows without a factory call, whatever the factories: the length that is
      told, and the bytes that are shown, are those of the reduced body. Nothing is told
      exactly when nothing is shown. */
  lemma LookingTellsWhatIsSent(make: Factories, body: RequestBody)
    ensures SizeHint(body).Some? <==> View(body) != Opaque
    ensures SizeHint(body).Some? ==>
              && Reduction(make, body).Ok? && Means(Reduction(make, body).value).Sent?
              && |Means(Reduction(make, body).value).bytes| == SizeHint(body).value
    ensures View(body).ViewBytes? ==>
              Reduction(make, body).Ok? && Means(Reduction(make, body).value) == Sent(View(body).bytes)
    ensures View(body).ViewEmpty? ==> Reduction(make, body) == Ok(NoBody)
  {
  }

  // ----- the bound

  ghost predicate Settles(make: Factories, body: RequestBody, n: nat) {
    !After(make, body, n).Rewindable?
  }

  /** The factory calls it takes to a body that is no factory's, if there is an end to them. */
  ghost function CallsToEnd(make: Factories, body: RequestBody): (calls: Option<nat>)
    ensures calls.Some? <==> exists n: nat :: Settles(make, body, n)
    ensures calls.Some? ==>
              Settles(make, body, calls.value) && forall n: nat :: n < calls.value ==> !Settles(make, body, n)
  {
    if exists n: nat :: Settles(make, body, n) then
      var n: nat :| Settles(make, body, n);
      Some(FirstToSettle(make, body, n))
    else None
  }

  ghost function FirstToSettle(make: Factories, body: RequestBody, n: nat): (first: nat)
    requires Settles(make, body, n)
    ensures first <= n && Settles(make, body, first) && forall k: nat :: k < first ==> !Settles(make, body, k)
  {
    if n == 0 || !Settles(make, body, n - 1) then
      NoneSettlesBefore(make, body, n);
      n
    else FirstToSettle(make, body, n - 1)
  }

  lemma NoneSettlesBefore(make: Factories, body: RequestBody, n: nat)
    requires n > 0 ==> !Settles(make, body, n - 1)
    ensures forall k: nat :: k < n ==> !Settles(make, body, k)
  {
    hide After;
    forall k: nat | k < n
      ensures !Settles(make, body, k)
    {
      if Settles(make, body, k) {
        AfterSettled(make, body, k, n - 1);
      }
    }
  }

  /** A chain is over after `n` calls if and only if it takes no more than `n`. */
  lemma SettlesIff(make: Factories, body: RequestBody, n: nat)
    ensures Settles(make, body, n) <==> CallsToEnd(make, body).Some? && CallsToEnd(make, body).value <= n
  {
    hide After;
    var calls := CallsToEnd(make, body);
    if calls.Some? && calls.value <= n {
      AfterSettled(make, body, calls.value, n);
    }
  }

  /** A body is refused if its chain takes sixteen calls or more; the documentation says more
      than sixteen. The two agree if and only if it does not take exactly sixteen. */
  lemma DocumentedBoundIff(make: Factories, body: RequestBody)
    ensures var calls := CallsToEnd(make, body);
            && (Reduction(make, body).Err? <==> calls.None? || calls.value >= MAX_REWIND_DEPTH)
            && (After(make, body, MAX_REWIND_DEPTH).Rewindable? <==> calls.None? || calls.value > MAX_REWIND_DEPTH)
            && ((Reduction(make, body).Err? <==> After(make, body, MAX_REWIND_DEPTH).Rewindable?) <==>
                calls != Some(MAX_REWIND_DEPTH))
  {
    hide After, CallsToEnd;
    SettlesIff(make, body, MAX_REWIND_DEPTH - 1);
    SettlesIff(make, body, MAX_REWIND_DEPTH);
  }

  /** Factory `k` makes factory `k - 1`'s body, and factory 0 makes an empty one. */
  function Countdown(k: FactoryId): RequestBody {
    if k == 0 then Empty else Rewindable(k - 1)
  }

  lemma {:induction false} CountdownSteps(k: nat, n: nat)
    ensures After(Countdown, Rewindable(k), n) == if n <= k then Rewindable(k - n) else Empty
    decreases k
  {
    if n > 0 && k > 0 {
      CountdownSteps(k - 1, n - 1);
    }
  }

  /** Sixteen factories in a row are refused, though the sixteenth call gives an empty body;
      fifteen are not. */
  lemma SixteenthCallIsWasted()
    ensures Reduction(Countdown, Rewindable(15)).Err? && After(Countdown, Rewindable(15), MAX_REWIND_DEPTH) == Empty
    ensures Reduction(Countdown, Rewindable(14)) == Ok(NoBody)
  {
    CountdownSteps(15, 15);
    CountdownSteps(15, 16);
    CountdownSteps(14, 15);
  }

  function Itself(f: FactoryId): RequestBody {
    Rewindable(f)
  }

  lemma {:induction false} EndlessSteps(f: FactoryId, n: nat)
    ensures After(Itself, Rewindable(f), n) == Rewindable(f)
  {
    if n > 0 {
      EndlessSteps(f, n - 1);
    }
  }

  /** A factory that makes itself is refused, and stays refused however often it is rewound. */
  lemma EndlessIsRefused(f: FactoryId, n: nat)
    ensures Rewinds(Itself, Rewindable(f), n).Some?
    ensures Reduction(Itself, Rewinds(Itself, Rewindable(f), n).value).Err?
  {
    hide After;
    EndlessSteps(f, n);
    EndlessSteps(f, MAX_REWIND_DEPTH - 1);
    if n > 0 {
      EndlessSteps(f, n - 1);
    }
    RewindsWalkTheChain(Itself, Rewindable(f), n);
  }

  /** What a retry costs is told by the kind of body alone: bytes in hand are free, a factory has
      to be called, a stream is gone. */
  lemma RetryKindIs(make: Factories, body: RequestBody)
    ensures RetryKindOf(body) == Free <==> body.Empty? || body.Full?
    ensures RetryKindOf(body) == Free ==> Rewind(make, body) == Some(body)
    ensures RetryKindOf(body) == ViaFactory <==> body.Rewindable?
    ensures RetryKindOf(body) == ViaFactory ==> Rewind(make, body) == Some(make(body.factory))
    ensures RetryKindOf(body) == Impossible <==> body.Streaming?
  {
  }
}
