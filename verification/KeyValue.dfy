/** The in-memory key/value store: namespaces of keys of expiring slots, swept lazily by `Put`.
    The lock taken by every operation makes each one a single atomic step. */
module KeyValue {
  import opened Wrappers

  datatype Ordering = Less | Equal | Greater

  /** A clock is only partially ordered: `compare` may answer `None`. */
  datatype Clock<!I> = Clock(compare: (I, I) -> Option<Ordering>) {

    /** `a` is provably not after `b`. */
    predicate AtOrBefore(a: I, b: I) {
      compare(a, b) == Some(Less) || compare(a, b) == Some(Equal)
    }
  }

  /** What the clock's ordering contract gives: provable order composes. */
  ghost predicate Transitive<I(!new)>(clock: Clock<I>) {
    forall a, b, c :: clock.AtOrBefore(a, b) && clock.AtOrBefore(b, c) ==> clock.AtOrBefore(a, c)
  }

  datatype Slot<I> = Slot(value: Bytes, expires: Option<I>)

  type Keys<I> = map<string, seq<Slot<I>>>

  type Namespaces<I> = map<string, Keys<I>>

  /** A slot may be answered with unless it is provably expired, so an expiry that `now` cannot
      be compared to does not count. */
  predicate IsLive<I>(clock: Clock<I>, s: Slot<I>, now: I)
    ensures IsLive(clock, s, now) <==>
            || s.expires.None?
            || (clock.compare(s.expires.value, now) != Some(Less) && clock.compare(s.expires.value, now) != Some(Equal))
  {
    s.expires.None? || !clock.AtOrBefore(s.expires.value, now)
  }

  /** An expiry behind `now`, or one it cannot be compared to, keeps a slot; one before or at
      `now` does not. */
  lemma ExpiryDecides<I>(clock: Clock<I>, value: Bytes, expires: I, now: I)
    ensures clock.compare(expires, now) == None || clock.compare(expires, now) == Some(Greater) ==>
              Live(clock, [Slot(value, Some(expires))], now) == [Slot(value, Some(expires))]
    ensures clock.compare(expires, now) == Some(Less) || clock.compare(expires, now) == Some(Equal) ==>
              Live(clock, [Slot(value, Some(expires))], now) == []
    ensures Live(clock, [Slot(value, None)], now) == [Slot(value, None)]
  {
    var bounded, unbounded: Slot<I> := Slot(value, Some(expires)), Slot(value, None);
    assert [bounded][..0] == [] && [unbounded][..0] == [];
  }

  /** The slots of `slots` that are live at `now`, in order. */
  function Live<I>(clock: Clock<I>, slots: seq<Slot<I>>, now: I): (r: seq<Slot<I>>)
    ensures forall s :: s in r ==> s in slots && IsLive(clock, s, now)
    ensures |r| <= |slots|
    ensures slots != [] ==> (r != [] <== IsLive(clock, slots[|slots| - 1], now))
  {
    if slots == [] then
      []
    else
      var last := slots[|slots| - 1];
      Live(clock, slots[..|slots| - 1], now) + if IsLive(clock, last, now) then [last] else []
  }

  function Values<I>(slots: seq<Slot<I>>): seq<Bytes> {
    seq(|slots|, i requires 0 <= i < |slots| => slots[i].value)
  }

  function Held<I>(store: Namespaces<I>, ns: string, key: string): seq<Slot<I>> {
    if ns in store && key in store[ns] then store[ns][key] else []
  }

  function ReadOne<I>(clock: Clock<I>, store: Namespaces<I>, ns: string, key: string, now: I): seq<Bytes> {
    Values(Live(clock, Held(store, ns, key), now))
  }

  /** The state-changing operations. */
  datatype Op<I> =
    | Put(ns: string, key: string, value: Bytes, expires: Option<I>, now: I)
    | Remove(ns: string, key: string)
    | Clear(ns: string)
    | RemovePrefix(ns: string, prefix: string)

  /** `keys` becomes the content of `ns`; an emptied namespace goes. */
  function WithKeys<I>(store: Namespaces<I>, ns: string, keys: Keys<I>): Namespaces<I> {
    if keys == map[] then store - {ns} else store[ns := keys]
  }

  function WithoutPrefix<I>(keys: Keys<I>, prefix: string): Keys<I> {
    map k | k in keys && !(prefix <= k) :: keys[k]
  }

  function Apply<I>(clock: Clock<I>, store: Namespaces<I>, op: Op<I>): Namespaces<I> {
    match op
    case Put(ns, key, value, expires, now) =>
      var keys := if ns in store then store[ns] else map[];
      var slots := if key in keys then keys[key] else [];
      store[ns := keys[key := Live(clock, slots, now) + [Slot(value, expires)]]]
    case Remove(ns, key) =>
      if ns in store then WithKeys(store, ns, store[ns] - {key}) else store
    case Clear(ns) =>
      store - {ns}
    case RemovePrefix(ns, prefix) =>
      if ns in store then
        WithKeys(store, ns, WithoutPrefix(store[ns], prefix))
      else
        store
  }

  function ApplyAll<I>(clock: Clock<I>, store: Namespaces<I>, ops: seq<Op<I>>): Namespaces<I> {
    if ops == [] then store
    else Apply(clock, ApplyAll(clock, store, ops[..|ops| - 1]), ops[|ops| - 1])
  }

  /** The representation invariant: nothing empty is kept. */
  ghost predicate NothingEmpty<I>(store: Namespaces<I>) {
    forall ns :: ns in store ==> store[ns] != map[] && forall k :: k in store[ns] ==> store[ns][k] != []
  }

  // ----- the class

  /** The values paired with `key` in a scan's answer, in answer order. */
  function ValuesOf(pairs: seq<(string, Bytes)>, key: string): seq<Bytes> {
    if pairs == [] then []
    else
      var last := pairs[|pairs| - 1];
      ValuesOf(pairs[..|pairs| - 1], key) + if last.0 == key then [last.1] else []
  }

  predicate MatchesAny(prefixes: seq<string>, key: string) {
    exists i :: 0 <= i < |prefixes| && prefixes[i] <= key
  }

  /** How many of the first `k` slots are not provably expired. */
  function UnexpiredBefore<I>(clock: Clock<I>, slots: seq<Slot<I>>, k: nat, now: I): nat
    requires k <= |slots|
  {
    if k == 0 then 0
    else UnexpiredBefore(clock, slots, k - 1, now) + if Unexpired(clock, slots[k - 1], now) then 1 else 0
  }

  predicate Unexpired<I>(clock: Clock<I>, s: Slot<I>, now: I) {
    s.expires.None? || !(clock.compare(s.expires.value, now) in {Some(Less), Some(Equal)})
  }

  /** Each slot with no expiry, or with one that is neither before nor at `now`, incomparable
      ones included, stands behind those of its kind before it, and no other slot is kept. */
  ghost predicate KeepsUnexpired<I>(clock: Clock<I>, slots: seq<Slot<I>>, now: I, kept: seq<Slot<I>>) {
    && |kept| == UnexpiredBefore(clock, slots, |slots|, now)
    && forall k :: 0 <= k < |slots| && Unexpired(clock, slots[k], now) ==> KeptAt(clock, slots, k, now, kept)
  }

  ghost predicate KeptAt<I>(clock: Clock<I>, slots: seq<Slot<I>>, k: nat, now: I, kept: seq<Slot<I>>)
    requires k < |slots|
  {
    UnexpiredBefore(clock, slots, k, now) < |kept| && kept[UnexpiredBefore(clock, slots, k, now)] == slots[k]
  }

  lemma {:induction false} LiveKeepsUnexpired<I>(clock: Clock<I>, slots: seq<Slot<I>>, now: I)
    ensures KeepsUnexpired(clock, slots, now, Live(clock, slots, now))
  {
    if slots != [] {
      var n := |slots| - 1;
      LiveKeepsUnexpired(clock, slots[..n], now);
      var kept := Live(clock, slots[..n], now);
      forall k | 0 <= k <= n
        ensures UnexpiredBefore(clock, slots[..n], k, now) == UnexpiredBefore(clock, slots, k, now)
      {
        SameBefore(clock, slots, n, k, now);
      }
      forall k | 0 <= k < |slots| && Unexpired(clock, slots[k], now)
        ensures KeptAt(clock, slots, k, now, Live(clock, slots, now))
      {
        assert k < n ==> slots[..n][k] == slots[k] && KeptAt(clock, slots[..n], k, now, kept);
      }
    }
  }

  lemma {:induction false} SameBefore<I>(clock: Clock<I>, slots: seq<Slot<I>>, n: nat, k: nat, now: I)
    requires k <= n <= |slots|
    ensures UnexpiredBefore(clock, slots[..n], k, now) == UnexpiredBefore(clock, slots, k, now)
  {
    if k > 0 {
      SameBefore(clock, slots, n, k - 1, now);
    }
  }

  /** The same of the values a read answers with. */
  ghost predicate AnswersUnexpired<I>(clock: Clock<I>, slots: seq<Slot<I>>, now: I, r: seq<Bytes>) {
    && |r| == UnexpiredBefore(clock, slots, |slots|, now)
    && forall k :: 0 <= k < |slots| && Unexpired(clock, slots[k], now) ==>
         UnexpiredBefore(clock, slots, k, now) < |r| && r[UnexpiredBefore(clock, slots, k, now)] == slots[k].value
  }

  lemma AnswersAsKept<I>(clock: Clock<I>, slots: seq<Slot<I>>, now: I)
    ensures AnswersUnexpired(clock, slots, now, Values(Live(clock, slots, now)))
  {
    hide Live, Unexpired, UnexpiredBefore;
    LiveKeepsUnexpired(clock, slots, now);
    forall k | 0 <= k < |slots| && Unexpired(clock, slots[k], now)
      ensures UnexpiredBefore(clock, slots, k, now) < |Live(clock, slots, now)|
      ensures Live(clock, slots, now)[UnexpiredBefore(clock, slots, k, now)] == slots[k]
    {
      assert KeptAt(clock, slots, k, now, Live(clock, slots, now));
    }
  }

  method ReadSlots<I>(clock: Clock<I>, slots: seq<Slot<I>>, now: I) returns (r: seq<Bytes>)
    ensures r == Values(Live(clock, slots, now)) && AnswersUnexpired(clock, slots, now, r)
  {
    hide Live, IsLive;
    LiveOfNothing(clock, now);
    r := [];
    assert slots[..0] == [];
    for k := 0 to |slots|
      invariant r == Values(Live(clock, slots[..k], now))
    {
      LiveNext(clock, slots, k, now);
      if IsLive(clock, slots[k], now) {
        r := r + [slots[k].value];
      }
    }
    assert slots[..|slots|] == slots;
    AnswersAsKept(clock, slots, now);
  }

  lemma LiveOfNothing<I>(clock: Clock<I>, now: I)
    ensures Live(clock, [], now) == []
  {
  }

  lemma LiveNext<I>(clock: Clock<I>, slots: seq<Slot<I>>, k: nat, now: I)
    requires k < |slots|
    ensures Live(clock, slots[..k + 1], now) ==
            Live(clock, slots[..k], now) + if IsLive(clock, slots[k], now) then [slots[k]] else []
  {
    assert slots[..k + 1][..k] == slots[..k];
  }

  class MemoryStore<I(!new)> {
    const clock: Clock<I>
    var namespaces: Namespaces<I>

    ghost predicate Valid()
      reads this
    {
      NothingEmpty(namespaces)
    }

    constructor (clock: Clock<I>)
      ensures Valid() && namespaces == map[] && this.clock == clock
    {
      this.clock := clock;
      namespaces := map[];
    }

    /** The values under the key that are not provably expired, each once and in put order. */
    method Get(ns: string, key: string, now: I) returns (r: seq<Bytes>)
      ensures AnswersUnexpired(clock, Held(namespaces, ns, key), now, r)
      ensures r == ReadOne(clock, namespaces, ns, key, now)
    {
      r := ReadSlots(clock, Held(namespaces, ns, key), now);
    }

    /** One answer per key, in the order given. */
    method GetMany(ns: string, keys: seq<string>, now: I) returns (r: seq<seq<Bytes>>)
      ensures |r| == |keys|
      ensures forall i :: 0 <= i < |keys| ==> r[i] == ReadOne(clock, namespaces, ns, keys[i], now)
    {
      r := [];
      for i := 0 to |keys|
        invariant |r| == i
        invariant forall j :: 0 <= j < i ==> r[j] == ReadOne(clock, namespaces, ns, keys[j], now)
      {
        var values := Get(ns, keys[i], now);
        r := r + [values];
      }
    }

    method Put(ns: string, key: string, value: Bytes, expires: Option<I>, now: I)
      requires Valid()
      modifies this
      ensures Valid()
      ensures namespaces == Apply(clock, old(namespaces), Op.Put(ns, key, value, expires, now))
      ensures var held := Held(namespaces, ns, key);
              held != [] && held[|held| - 1] == Slot(value, expires) &&
              KeepsUnexpired(clock, old(Held(namespaces, ns, key)), now, held[..|held| - 1])
    {
      LiveKeepsUnexpired(clock, Held(namespaces, ns, key), now);
      ApplyKeepsNothingEmpty(clock, namespaces, Op.Put(ns, key, value, expires, now));
      var keys := if ns in namespaces then namespaces[ns] else map[];
      var slots := if key in keys then keys[key] else [];
      slots := Live(clock, slots, now);
      slots := slots + [Slot(value, expires)];
      namespaces := namespaces[ns := keys[key := slots]];
    }

    method Remove(ns: string, key: string)
      requires Valid()
      modifies this
      ensures Valid()
      ensures namespaces == Apply(clock, old(namespaces), Op.Remove(ns, key))
    {
      ApplyKeepsNothingEmpty(clock, namespaces, Op.Remove(ns, key));
      if ns in namespaces {
        var keys := namespaces[ns] - {key};
        if keys == map[] {
          namespaces := namespaces - {ns};
        } else {
          namespaces := namespaces[ns := keys];
        }
      }
    }

    method Clear(ns: string)
      requires Valid()
      modifies this
      ensures Valid()
      ensures namespaces == Apply(clock, old(namespaces), Op.Clear(ns))
    {
      namespaces := namespaces - {ns};
    }

    method RemovePrefix(ns: string, prefix: string)
      requires Valid()
      modifies this
      ensures Valid()
      ensures namespaces == Apply(clock, old(namespaces), Op.RemovePrefix(ns, prefix))
    {
      ApplyKeepsNothingEmpty(clock, namespaces, Op.RemovePrefix(ns, prefix));
      if ns in namespaces {
        var keys := WithoutPrefix(namespaces[ns], prefix);
        if keys == map[] {
          namespaces := namespaces - {ns};
        } else {
          namespaces := namespaces[ns := keys];
        }
      }
    }

    method Scan(ns: string, prefix: string, now: I) returns (r: seq<(string, Bytes)>)
      ensures forall k :: ValuesOf(r, k) ==
                          if prefix <= k then ReadOne(clock, namespaces, ns, k, now) else []
    {
      var keys := if ns in namespaces then namespaces[ns] else map[];
      r := Gather(clock, keys, (set k | k in keys && prefix <= k), now);
    }

    method ScanMany(ns: string, prefixes: seq<string>, now: I) returns (r: seq<(string, Bytes)>)
      ensures forall k :: ValuesOf(r, k) ==
                          if exists i :: 0 <= i < |prefixes| && prefixes[i] <= k
                          then ReadOne(clock, namespaces, ns, k, now) else []
    {
      var keys := if ns in namespaces then namespaces[ns] else map[];
      r := Gather(clock, keys, (set k | k in keys && MatchesAny(prefixes, k)), now);
    }
  }

  function Contributed<I>(clock: Clock<I>, keys: Keys<I>, wanted: set<string>, key: string, now: I): seq<Bytes>
    requires wanted <= keys.Keys
  {
    if key in wanted then Values(Live(clock, keys[key], now)) else []
  }

  /** The live pairs of the `wanted` keys. A hash map is walked in no particular order, so
      the answer fixes only what each key contributes, and in which order. */
  method Gather<I(!new)>(clock: Clock<I>, keys: Keys<I>, wanted: set<string>, now: I) returns (r: seq<(string, Bytes)>)
    requires wanted <= keys.Keys
    ensures forall k :: ValuesOf(r, k) == Contributed(clock, keys, wanted, k, now)
  {
    r := [];
    var todo := wanted;
    while todo != {}
      invariant todo <= wanted
      invariant forall k :: ValuesOf(r, k) == Contributed(clock, keys, wanted - todo, k, now)
      decreases todo
    {
      var key :| key in todo;
      var values := Values(Live(clock, keys[key], now));
      forall k
        ensures ValuesOf(r + Tag(key, values), k) == Contributed(clock, keys, wanted - todo + {key}, k, now)
      {
        TagAppends(r, key, values, k);
      }
      assert wanted - (todo - {key}) == wanted - todo + {key};
      r, todo := r + Tag(key, values), todo - {key};
    }
  }

  function Tag(key: string, values: seq<Bytes>): seq<(string, Bytes)> {
    seq(|values|, i requires 0 <= i < |values| => (key, values[i]))
  }

  lemma {:induction false} TagAppends(pairs: seq<(string, Bytes)>, key: string, values: seq<Bytes>, k: string)
    ensures ValuesOf(pairs + Tag(key, values), k) == ValuesOf(pairs, k) + if k == key then values else []
  {
    if values == [] {
      assert pairs + Tag(key, values) == pairs;
    } else {
      var n := |values| - 1;
      TagAppends(pairs, key, values[..n], k);
      var all := pairs + Tag(key, values);
      assert all[..|all| - 1] == pairs + Tag(key, values[..n]);
      assert values == values[..n] + [values[n]];
    }
  }

  // ----- what an operation does to the slots of one key

  predicate Covers<I>(op: Op<I>, ns: string, key: string) {
    match op
    case Put(_, _, _, _, _) => false
    case Remove(n, k) => n == ns && k == key
    case Clear(n) => n == ns
    case RemovePrefix(n, p) => n == ns && p <= key
  }

  predicate PutsTo<I>(op: Op<I>, ns: string, key: string) {
    op.Put? && op.ns == ns && op.key == key
  }

  lemma HeldAfter<I>(clock: Clock<I>, store: Namespaces<I>, op: Op<I>, ns: string, key: string)
    ensures Held(Apply(clock, store, op), ns, key) ==
            if op.ns != ns then Held(store, ns, key)
            else if op.Put? && op.key == key then
              Live(clock, Held(store, ns, key), op.now) + [Slot(op.value, op.expires)]
            else if (op.Remove? && op.key == key) || op.Clear? || (op.RemovePrefix? && op.prefix <= key) then []
            else Held(store, ns, key)
  {
    match op
    case Put(n, k, _, _, _) =>
    case Remove(n, k) =>
      if n in store && n == ns {
        HeldWithKeys(store, n, store[n] - {k}, ns, key);
      }
    case Clear(n) =>
    case RemovePrefix(n, p) =>
      if n in store {
        HeldWithKeys(store, n, WithoutPrefix(store[n], p), ns, key);
      }
  }

  lemma HeldWithKeys<I>(store: Namespaces<I>, n: string, keys: Keys<I>, ns: string, key: string)
    ensures Held(WithKeys(store, n, keys), ns, key) ==
            if ns != n then Held(store, ns, key) else if key in keys then keys[key] else []
  {
  }

  /** Every reachable store keeps the representation invariant. */
  lemma {:induction false} ReachableNothingEmpty<I>(clock: Clock<I>, ops: seq<Op<I>>)
    ensures NothingEmpty(ApplyAll(clock, map[], ops))
  {
    if ops != [] {
      ReachableNothingEmpty(clock, ops[..|ops| - 1]);
      ApplyKeepsNothingEmpty(clock, ApplyAll(clock, map[], ops[..|ops| - 1]), ops[|ops| - 1]);
    }
  }

  lemma ApplyKeepsNothingEmpty<I>(clock: Clock<I>, store: Namespaces<I>, op: Op<I>)
    requires NothingEmpty(store)
    ensures NothingEmpty(Apply(clock, store, op))
  {
    match op
    case Put(_, _, _, _, _) =>
    case Remove(_, _) =>
    case Clear(_) =>
    case RemovePrefix(_, _) =>
  }

  // ----- the history that never forgets

  /** Everything put under `ns` and `key` since the last operation that covers it. */
  function History<I>(ops: seq<Op<I>>, ns: string, key: string): seq<Slot<I>> {
    if ops == [] then []
    else
      var before, op := ops[..|ops| - 1], ops[|ops| - 1];
      if PutsTo(op, ns, key) then History(before, ns, key) + [Slot(op.value, op.expires)]
      else if Covers(op, ns, key) then []
      else History(before, ns, key)
  }

  function HistoryAnswer<I>(clock: Clock<I>, ops: seq<Op<I>>, ns: string, key: string, now: I): seq<Bytes> {
    Values(Live(clock, History(ops, ns, key), now))
  }

  function StoreAnswer<I>(clock: Clock<I>, ops: seq<Op<I>>, ns: string, key: string, now: I): seq<Bytes> {
    ReadOne(clock, ApplyAll(clock, map[], ops), ns, key, now)
  }

  /** No put ever swept a value that a read at `now` would still answer with. */
  ghost predicate NoLiveSweep<I>(clock: Clock<I>, ops: seq<Op<I>>, ns: string, key: string, now: I) {
    ops == [] ||
    var before, op := ops[..|ops| - 1], ops[|ops| - 1];
    Covers(op, ns, key) ||
    (&& NoLiveSweep(clock, before, ns, key, now)
     && (PutsTo(op, ns, key) ==>
           LiveToo(clock, History(before, ns, key), op.now, now)))
  }

  /** Every put to the key happened provably at or before `now`. */
  predicate PutsAtOrBefore<I>(clock: Clock<I>, ops: seq<Op<I>>, ns: string, key: string, now: I) {
    forall i :: 0 <= i < |ops| && PutsTo(ops[i], ns, key) ==> clock.AtOrBefore(ops[i].now, now)
  }

  // ----- filtering

  lemma {:induction false} LiveAppend<I>(clock: Clock<I>, a: seq<Slot<I>>, b: seq<Slot<I>>, now: I)
    ensures Live(clock, a + b, now) == Live(clock, a, now) + Live(clock, b, now)
  {
    if b == [] {
      assert a + b == a;
    } else {
      assert (a + b)[..|a + b| - 1] == a + b[..|b| - 1];
      LiveAppend(clock, a, b[..|b| - 1], now);
    }
  }

  lemma {:induction false} LiveCommutes<I>(clock: Clock<I>, a: seq<Slot<I>>, t: I, u: I)
    ensures Live(clock, Live(clock, a, t), u) == Live(clock, Live(clock, a, u), t)
  {
    if a != [] {
      var init, last := a[..|a| - 1], a[|a| - 1];
      LiveCommutes(clock, init, t, u);
      LiveAppend(clock, Live(clock, init, t), if IsLive(clock, last, t) then [last] else [], u);
      LiveAppend(clock, Live(clock, init, u), if IsLive(clock, last, u) then [last] else [], t);
    }
  }

  /** Every slot of `a` that a read at `u` would answer with is still live at `t`. */
  ghost predicate LiveToo<I>(clock: Clock<I>, a: seq<Slot<I>>, t: I, u: I) {
    forall s :: s in a && IsLive(clock, s, u) ==> IsLive(clock, s, t)
  }

  /** Filtering at `t` first costs a read at `u` exactly the slots live at `u` and expired at `t`. */
  lemma {:induction false} SweepLoses<I>(clock: Clock<I>, a: seq<Slot<I>>, t: I, u: I)
    ensures var swept := Live(clock, Live(clock, a, t), u);
            if LiveToo(clock, a, t, u) then swept == Live(clock, a, u) else |swept| < |Live(clock, a, u)|
  {
    if a != [] {
      var init, last := a[..|a| - 1], a[|a| - 1];
      assert a == init + [last];
      SweepLoses(clock, init, t, u);
      LiveAppend(clock, Live(clock, init, t), if IsLive(clock, last, t) then [last] else [], u);
      assert LiveToo(clock, a, t, u) <==>
             LiveToo(clock, init, t, u) && (IsLive(clock, last, u) ==> IsLive(clock, last, t));
    }
  }

  // ----- the self-pruning store against the history

  /** One put, swept at `t` in the store and not in the history, seen by a read at `now`. */
  lemma SweepBeforePut<I>(clock: Clock<I>, held: seq<Slot<I>>, kept: seq<Slot<I>>, added: Slot<I>, t: I, now: I)
    requires Live(clock, held, now) == Live(clock, kept, now) || |Live(clock, held, now)| < |Live(clock, kept, now)|
    ensures var held' := Live(clock, Live(clock, held, t) + [added], now);
            var kept' := Live(clock, kept + [added], now);
            if Live(clock, held, now) == Live(clock, kept, now) && LiveToo(clock, kept, t, now)
            then held' == kept' else |held'| < |kept'|
  {
    LiveAppend(clock, Live(clock, held, t), [added], now);
    LiveAppend(clock, kept, [added], now);
    SweepLoses(clock, held, t, now);
    SweepLoses(clock, kept, t, now);
    LiveCommutes(clock, held, t, now);
    LiveCommutes(clock, kept, t, now);
  }

  lemma NothingHeld<I>(ns: string, key: string)
    ensures Held<I>(map[], ns, key) == []
  {
  }

  lemma {:induction false} HeldAgainstHistory<I>(clock: Clock<I>, ops: seq<Op<I>>, ns: string, key: string, now: I)
    ensures var held := Live(clock, Held(ApplyAll(clock, map[], ops), ns, key), now);
            var kept := Live(clock, History(ops, ns, key), now);
            if NoLiveSweep(clock, ops, ns, key, now) then held == kept else |held| < |kept|
  {
    hide Apply, Live, Held;
    if ops == [] {
      NothingHeld<I>(ns, key);
    } else {
      var before, op := ops[..|ops| - 1], ops[|ops| - 1];
      var held := Held(ApplyAll(clock, map[], before), ns, key);
      var kept := History(before, ns, key);
      HeldAgainstHistory(clock, before, ns, key, now);
      HeldAfter(clock, ApplyAll(clock, map[], before), op, ns, key);
      if PutsTo(op, ns, key) {
        SweepBeforePut(clock, held, kept, Slot(op.value, op.expires), op.now, now);
      }
    }
  }

  /** The store answers as the history does exactly when no put swept a value the read
      would still answer with; nothing is asked of the clock. */
  lemma StoreIsHistoryIff<I>(clock: Clock<I>, ops: seq<Op<I>>, ns: string, key: string, now: I)
    ensures StoreAnswer(clock, ops, ns, key, now) == HistoryAnswer(clock, ops, ns, key, now)
            <==> NoLiveSweep(clock, ops, ns, key, now)
  {
    HeldAgainstHistory(clock, ops, ns, key, now);
    assert |StoreAnswer(clock, ops, ns, key, now)| ==
           |Live(clock, Held(ApplyAll(clock, map[], ops), ns, key), now)|;
    assert |HistoryAnswer(clock, ops, ns, key, now)| == |Live(clock, History(ops, ns, key), now)|;
  }

  lemma {:induction false} ForwardClockSweepsNothingLive<I(!new)>(
      clock: Clock<I>, ops: seq<Op<I>>, ns: string, key: string, now: I)
    requires Transitive(clock)
    requires PutsAtOrBefore(clock, ops, ns, key, now)
    ensures NoLiveSweep(clock, ops, ns, key, now)
  {
    if ops != [] {
      var before, op := ops[..|ops| - 1], ops[|ops| - 1];
      forall i | 0 <= i < |before| && PutsTo(before[i], ns, key)
        ensures clock.AtOrBefore(before[i].now, now)
      {
        assert PutsTo(ops[i], ns, key);
      }
      ForwardClockSweepsNothingLive(clock, before, ns, key, now);
      if PutsTo(op, ns, key) {
        assert clock.AtOrBefore(ops[|ops| - 1].now, now);
      }
    }
  }

  /** A read not before any earlier put to its key cannot tell the sweeping store from the
      history that never forgets. Incomparable instants are allowed elsewhere. */
  lemma StoreRefinesHistory<I(!new)>(clock: Clock<I>, ops: seq<Op<I>>, ns: string, key: string, now: I)
    requires Transitive(clock)
    requires PutsAtOrBefore(clock, ops, ns, key, now)
    ensures StoreAnswer(clock, ops, ns, key, now) == HistoryAnswer(clock, ops, ns, key, now)
  {
    ForwardClockSweepsNothingLive(clock, ops, ns, key, now);
    StoreIsHistoryIff(clock, ops, ns, key, now);
  }

  // ----- with no assumption on `now`

  /** `a` is `b` with some elements left out. */
  predicate Subsequence<T(==)>(a: seq<T>, b: seq<T>) {
    a == [] ||
    (&& b != []
     && (|| Subsequence(a, b[..|b| - 1])
         || (a[|a| - 1] == b[|b| - 1] && Subsequence(a[..|a| - 1], b[..|b| - 1]))))
  }

  lemma {:induction false} SubsequenceTransitive<T>(a: seq<T>, b: seq<T>, c: seq<T>)
    requires Subsequence(a, b) && Subsequence(b, c)
    ensures Subsequence(a, c)
    decreases |b| + |c|
  {
    if a != [] {
      if Subsequence(b, c[..|c| - 1]) {
        SubsequenceTransitive(a, b, c[..|c| - 1]);
      } else if Subsequence(a, b[..|b| - 1]) {
        SubsequenceTransitive(a, b[..|b| - 1], c[..|c| - 1]);
      } else {
        SubsequenceTransitive(a[..|a| - 1], b[..|b| - 1], c[..|c| - 1]);
      }
    }
  }

  lemma {:induction false} LiveIsSubsequence<I>(clock: Clock<I>, slots: seq<Slot<I>>, now: I)
    ensures Subsequence(Live(clock, slots, now), slots)
  {
    if slots != [] {
      LiveIsSubsequence(clock, slots[..|slots| - 1], now);
      var r := Live(clock, slots, now);
      if IsLive(clock, slots[|slots| - 1], now) {
        assert r[..|r| - 1] == Live(clock, slots[..|slots| - 1], now);
      } else {
        assert r == Live(clock, slots[..|slots| - 1], now);
      }
    }
  }

  lemma {:induction false} ValuesSubsequence<I>(a: seq<Slot<I>>, b: seq<Slot<I>>)
    requires Subsequence(a, b)
    ensures Subsequence(Values(a), Values(b))
    decreases |b|
  {
    if a != [] {
      assert Values(b)[..|b| - 1] == Values(b[..|b| - 1]);
      assert Values(a)[..|a| - 1] == Values(a[..|a| - 1]);
      if Subsequence(a, b[..|b| - 1]) {
        ValuesSubsequence(a, b[..|b| - 1]);
      } else {
        ValuesSubsequence(a[..|a| - 1], b[..|b| - 1]);
      }
    }
  }

  lemma {:induction false} HeldIsSubsequence<I>(clock: Clock<I>, ops: seq<Op<I>>, ns: string, key: string)
    ensures Subsequence(Held(ApplyAll(clock, map[], ops), ns, key), History(ops, ns, key))
  {
    if ops != [] {
      var before, op := ops[..|ops| - 1], ops[|ops| - 1];
      var held := Held(ApplyAll(clock, map[], before), ns, key);
      var kept := History(before, ns, key);
      HeldIsSubsequence(clock, before, ns, key);
      HeldAfter(clock, ApplyAll(clock, map[], before), op, ns, key);
      if PutsTo(op, ns, key) {
        LiveIsSubsequence(clock, held, op.now);
        SubsequenceTransitive(Live(clock, held, op.now), held, kept);
        var added := [Slot(op.value, op.expires)];
        var swept := Live(clock, held, op.now);
        assert (swept + added)[..|swept|] == swept && (kept + added)[..|kept|] == kept;
      }
    }
  }

  lemma {:induction false} LiveSubsequence<I>(clock: Clock<I>, a: seq<Slot<I>>, b: seq<Slot<I>>, now: I)
    requires Subsequence(a, b)
    ensures Subsequence(Live(clock, a, now), Live(clock, b, now))
    decreases |b|
  {
    if a != [] {
      var m, n := |a| - 1, |b| - 1;
      if Subsequence(a, b[..n]) {
        LiveSubsequence(clock, a, b[..n], now);
        var shorter, longer := Live(clock, b[..n], now), Live(clock, b, now);
        if IsLive(clock, b[n], now) {
          assert longer[..|longer| - 1] == shorter;
        } else {
          assert longer == shorter;
        }
      } else {
        LiveSubsequence(clock, a[..m], b[..n], now);
        if IsLive(clock, b[n], now) {
          var la, lb := Live(clock, a, now), Live(clock, b, now);
          assert la[..|la| - 1] == Live(clock, a[..m], now) && lb[..|lb| - 1] == Live(clock, b[..n], now);
        } else {
          assert Live(clock, a, now) == Live(clock, a[..m], now) && Live(clock, b, now) == Live(clock, b[..n], now);
        }
      }
    }
  }

  /** Whatever the clock does, an answer is the history's with values left out, and the
      history's holds no provably expired value. */
  lemma AnswersAreSubsequence<I>(clock: Clock<I>, ops: seq<Op<I>>, ns: string, key: string, now: I)
    ensures Subsequence(StoreAnswer(clock, ops, ns, key, now), HistoryAnswer(clock, ops, ns, key, now))
    ensures forall s :: s in Live(clock, Held(ApplyAll(clock, map[], ops), ns, key), now) ==> IsLive(clock, s, now)
  {
    HeldIsSubsequence(clock, ops, ns, key);
    LiveSubsequence(clock, Held(ApplyAll(clock, map[], ops), ns, key), History(ops, ns, key), now);
    ValuesSubsequence(Live(clock, Held(ApplyAll(clock, map[], ops), ns, key), now),
                      Live(clock, History(ops, ns, key), now));
  }

  // ----- `RemovePrefix` against scan-then-remove

  function RemoveEach<I>(ns: string, keys: seq<string>): seq<Op<I>> {
    seq(|keys|, i requires 0 <= i < |keys| => Op.Remove(ns, keys[i]))
  }

  /** Two stores that differ at most in slots provably expired at `t`. */
  ghost predicate SameFrom<I(!new)>(clock: Clock<I>, a: Namespaces<I>, b: Namespaces<I>, t: I) {
    forall ns, key :: Live(clock, Held(a, ns, key), t) == Live(clock, Held(b, ns, key), t)
  }

  lemma {:induction false} HeldAfterRemoveEach<I>(
      clock: Clock<I>, store: Namespaces<I>, ns: string, keys: seq<string>, n: string, key: string)
    ensures Held(ApplyAll(clock, store, RemoveEach(ns, keys)), n, key) ==
            if n == ns && key in keys then [] else Held(store, n, key)
  {
    var ops := RemoveEach<I>(ns, keys);
    if keys != [] {
      var k := |keys| - 1;
      assert ops[..k] == RemoveEach(ns, keys[..k]);
      HeldAfterRemoveEach(clock, store, ns, keys[..k], n, key);
      HeldAfter(clock, ApplyAll(clock, store, ops[..k]), ops[k], n, key);
      assert key in keys <==> key in keys[..k] || key == keys[k];
    }
  }

  /** Every operation, put at any time, keeps two such stores alike. */
  lemma {:induction false} SameFromPreserved<I(!new)>(
      clock: Clock<I>, a: Namespaces<I>, b: Namespaces<I>, ops: seq<Op<I>>, t: I)
    requires SameFrom(clock, a, b, t)
    ensures SameFrom(clock, ApplyAll(clock, a, ops), ApplyAll(clock, b, ops), t)
  {
    if ops != [] {
      var before, op := ops[..|ops| - 1], ops[|ops| - 1];
      SameFromPreserved(clock, a, b, before, t);
      var a', b' := ApplyAll(clock, a, before), ApplyAll(clock, b, before);
      forall ns, key
        ensures Live(clock, Held(Apply(clock, a', op), ns, key), t) ==
                Live(clock, Held(Apply(clock, b', op), ns, key), t)
      {
        HeldAfter(clock, a', op, ns, key);
        HeldAfter(clock, b', op, ns, key);
        if PutsTo(op, ns, key) {
          var added := [Slot(op.value, op.expires)];
          LiveAppend(clock, Live(clock, Held(a', ns, key), op.now), added, t);
          LiveAppend(clock, Live(clock, Held(b', ns, key), op.now), added, t);
          LiveCommutes(clock, Held(a', ns, key), op.now, t);
          LiveCommutes(clock, Held(b', ns, key), op.now, t);
        }
      }
    }
  }

  function KeysOf(pairs: seq<(string, Bytes)>): seq<string> {
    seq(|pairs|, i requires 0 <= i < |pairs| => pairs[i].0)
  }

  lemma PrefixAndScanAgree<I(!new)>(
      clock: Clock<I>, store: Namespaces<I>, ns: string, prefix: string, t: I, scanned: seq<(string, Bytes)>)
    requires forall k :: ValuesOf(scanned, k) == if prefix <= k then ReadOne(clock, store, ns, k, t) else []
    ensures SameFrom(clock, Apply(clock, store, Op.RemovePrefix(ns, prefix)),
                     ApplyAll(clock, store, RemoveEach(ns, KeysOf(scanned))), t)
  {
    var keys := KeysOf(scanned);
    forall m, k
      ensures Live(clock, Held(Apply(clock, store, Op.RemovePrefix(ns, prefix)), m, k), t) ==
              Live(clock, Held(ApplyAll(clock, store, RemoveEach(ns, keys)), m, k), t)
    {
      HeldAfter(clock, store, Op.RemovePrefix(ns, prefix), m, k);
      HeldAfterRemoveEach(clock, store, ns, keys, m, k);
      ScannedKeys(scanned, k);
      if m == ns && prefix <= k && k !in keys {
        assert |ReadOne(clock, store, ns, k, t)| == |Live(clock, Held(store, ns, k), t)|;
      }
    }
  }

  /** Deleting a prefix and removing every key a scan at `t` returned are told apart by no
      later read at a time not before `t`, whatever operations run in between. */
  lemma RemovePrefixIsScanAndRemove<I(!new)>(
      clock: Clock<I>, store: Namespaces<I>, ns: string, prefix: string, t: I, scanned: seq<(string, Bytes)>,
      later: seq<Op<I>>, n: string, key: string, now: I)
    requires Transitive(clock) && clock.AtOrBefore(t, now)
    requires forall k :: ValuesOf(scanned, k) == if prefix <= k then ReadOne(clock, store, ns, k, t) else []
    ensures ReadOne(clock, ApplyAll(clock, Apply(clock, store, Op.RemovePrefix(ns, prefix)), later), n, key, now) ==
            ReadOne(clock, ApplyAll(clock, ApplyAll(clock, store, RemoveEach(ns, KeysOf(scanned))), later), n, key, now)
  {
    PrefixAndScanAgree(clock, store, ns, prefix, t, scanned);
    var a := Apply(clock, store, Op.RemovePrefix(ns, prefix));
    var b := ApplyAll(clock, store, RemoveEach(ns, KeysOf(scanned)));
    SameFromPreserved(clock, a, b, later, t);
    LaterReadSeesOnlyLive(clock, Held(ApplyAll(clock, a, later), n, key), t, now);
    LaterReadSeesOnlyLive(clock, Held(ApplyAll(clock, b, later), n, key), t, now);
  }

  lemma {:induction false} ScannedKeys(scanned: seq<(string, Bytes)>, k: string)
    ensures ValuesOf(scanned, k) != [] <==> k in KeysOf(scanned)
  {
    if scanned != [] {
      var n := |scanned| - 1;
      ScannedKeys(scanned[..n], k);
      assert KeysOf(scanned) == KeysOf(scanned[..n]) + [scanned[n].0];
    }
  }

  lemma LaterReadSeesOnlyLive<I(!new)>(clock: Clock<I>, slots: seq<Slot<I>>, t: I, now: I)
    requires Transitive(clock) && clock.AtOrBefore(t, now)
    ensures Live(clock, Live(clock, slots, t), now) == Live(clock, slots, now)
  {
    SweepLoses(clock, slots, t, now);
  }

  /** With an empty prefix the delete is `Clear`, state for state. */
  lemma EmptyPrefixClears<I>(clock: Clock<I>, store: Namespaces<I>, ns: string)
    ensures Apply(clock, store, Op.RemovePrefix(ns, "")) == Apply(clock, store, Op.Clear(ns))
  {
    if ns in store {
      assert WithoutPrefix(store[ns], "").Keys == {};
    }
  }

  // ----- a scan's answer as a multiset

  /** What each key contributes fixes how often each pair is answered. */
  lemma {:induction false} ScanCountsPairs(pairs: seq<(string, Bytes)>, key: string, value: Bytes)
    ensures multiset(pairs)[(key, value)] == multiset(ValuesOf(pairs, key))[value]
  {
    if pairs != [] {
      var init, last := pairs[..|pairs| - 1], pairs[|pairs| - 1];
      assert pairs == init + [last];
      ScanCountsPairs(init, key, value);
    }
  }

  /** A prefix that extends one already asked for changes nothing. */
  lemma ExtendingPrefixIsRedundant(
      prefixes: seq<string>, longer: string, r: seq<(string, Bytes)>, r': seq<(string, Bytes)>,
      answer: string -> seq<Bytes>)
    requires exists i :: 0 <= i < |prefixes| && prefixes[i] <= longer
    requires forall k :: ValuesOf(r, k) == if MatchesAny(prefixes, k) then answer(k) else []
    requires forall k :: ValuesOf(r', k) == if MatchesAny(prefixes + [longer], k) then answer(k) else []
    ensures multiset(r) == multiset(r')
  {
    forall p: (string, Bytes)
      ensures multiset(r)[p] == multiset(r')[p]
    {
      var k := p.0;
      var all := prefixes + [longer];
      assert MatchesAny(prefixes, k) ==> MatchesAny(all, k) by {
        if MatchesAny(prefixes, k) {
          var i :| 0 <= i < |prefixes| && prefixes[i] <= k;
          assert all[i] <= k;
        }
      }
      assert MatchesAny(all, k) ==> MatchesAny(prefixes, k) by {
        if MatchesAny(all, k) {
          var i :| 0 <= i < |all| && all[i] <= k;
          var j :| 0 <= j < |prefixes| && prefixes[j] <= longer;
          assert prefixes[if i < |prefixes| then i else j] <= k;
        }
      }
      ScanCountsPairs(r, k, p.1);
      ScanCountsPairs(r', k, p.1);
    }
  }
}
