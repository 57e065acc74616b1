/** The progress meter: octets are added concurrently with reports, and a report is three
    atomic steps, a load of the count, a swap of the value last told, and the call of the hook. */
module Hooks {
  import opened Wrappers

  function Saturated(n: int): int {
    if n <= MAX_U64 then n else MAX_U64
  }

  type Reporter = nat

  /** A report under way: what it loaded and, once it has swapped, whether that was news. */
  datatype Report = Loaded(now: int) | Swapped(now: int, changed: bool)

  /** `emitted` logs the totals handed to the hook. */
  datatype State = State(moved: int, told: int, flight: map<Reporter, Report>, emitted: seq<int>)

  const INITIAL := State(0, 0, map[], [])

  /** `Call` ends a report, with the hook called if there is something to tell. */
  datatype Action = Add(n: nat) | Load(who: Reporter) | Swap(who: Reporter) | Call(who: Reporter)

  predicate Enabled(s: State, a: Action) {
    match a
    case Add(_) => true
    case Load(r) => r !in s.flight
    case Swap(r) => r in s.flight && s.flight[r].Loaded?
    case Call(r) => r in s.flight && s.flight[r].Swapped?
  }

  function Step(s: State, a: Action): State
    requires Enabled(s, a)
  {
    match a
    case Add(n) => s.(moved := Saturated(s.moved + n))
    case Load(r) => s.(flight := s.flight[r := Loaded(s.moved)])
    case Swap(r) =>
      var now := s.flight[r].now;
      s.(told := now, flight := s.flight[r := Swapped(now, s.told != now)])
    case Call(r) =>
      var report := s.flight[r];
      s.(flight := s.flight - {r}, emitted := if report.changed then s.emitted + [report.now] else s.emitted)
  }

  /** The state behind an interleaving, if every step of it could be taken. */
  function Run(steps: seq<Action>): Option<State> {
    if steps == [] then Some(INITIAL)
    else
      var s := Run(steps[..|steps| - 1]);
      if s.Some? && Enabled(s.value, steps[|steps| - 1]) then Some(Step(s.value, steps[|steps| - 1])) else None
  }

  function Sum(steps: seq<Action>): nat {
    if steps == [] then 0
    else Sum(steps[..|steps| - 1]) + if steps[|steps| - 1].Add? then steps[|steps| - 1].n else 0
  }

  /** At no point are two reports under way, from load to hook. */
  ghost predicate SingleFlight(steps: seq<Action>) {
    forall k :: 0 <= k <= |steps| && Run(steps[..k]).Some? ==> |Run(steps[..k]).value.flight| <= 1
  }

  ghost predicate NonDecreasing(from: int, s: seq<int>) {
    (s != [] ==> from <= s[0]) && forall i :: 0 < i < |s| ==> s[i - 1] <= s[i]
  }

  ghost predicate StrictlyIncreasing(from: int, s: seq<int>) {
    (s != [] ==> from < s[0]) && forall i :: 0 < i < |s| ==> s[i - 1] < s[i]
  }

  function Last(from: int, s: seq<int>): int {
    if s == [] then from else s[|s| - 1]
  }

  lemma Snoc(from: int, s: seq<int>, x: int)
    ensures NonDecreasing(from, s + [x]) <==> NonDecreasing(from, s) && Last(from, s) <= x
    ensures StrictlyIncreasing(from, s + [x]) <==> StrictlyIncreasing(from, s) && Last(from, s) < x
  {
    var t := s + [x];
    assert t[..|s|] == s && t[|s|] == x;
    assert forall i :: 0 <= i < |s| ==> t[i] == s[i];
  }

  // ----- what a schedule says

  /** Where `a` was last taken; -1 when it was not. */
  function LastOf(steps: seq<Action>, a: Action): (i: int)
    ensures -1 <= i < |steps| && (i >= 0 ==> steps[i] == a)
    ensures forall j :: i < j < |steps| ==> steps[j] != a
  {
    if steps == [] then -1
    else if steps[|steps| - 1] == a then |steps| - 1
    else
      var i := LastOf(steps[..|steps| - 1], a);
      assert forall j :: 0 <= j < |steps| - 1 ==> steps[j] == steps[..|steps| - 1][j];
      i
  }

  /** The load, and the swap, of the report that takes step `k`. */
  function LoadOf(steps: seq<Action>, k: nat): int
    requires k < |steps| && !steps[k].Add?
  {
    LastOf(steps[..k], Load(steps[k].who))
  }

  function SwapOf(steps: seq<Action>, k: nat): int
    requires k < |steps| && !steps[k].Add?
  {
    LastOf(steps[..k], Swap(steps[k].who))
  }

  /** What has moved before step `i`. */
  function MovedBefore(steps: seq<Action>, i: int): int
    requires i <= |steps|
  {
    if i < 0 then 0 else Saturated(Sum(steps[..i]))
  }

  /** What has moved before the load of the report that takes step `k`. */
  function MovedAtLoad(steps: seq<Action>, k: nat): int
    requires k < |steps| && !steps[k].Add?
  {
    MovedBefore(steps, LoadOf(steps, k))
  }

  /** What the last swap told. */
  function Told(steps: seq<Action>): int {
    if steps == [] then 0
    else if steps[|steps| - 1].Swap? then MovedAtLoad(steps, |steps| - 1)
    else Told(steps[..|steps| - 1])
  }

  /** The call at `k` has something to tell: what had moved before its load is not what the
      last swap before its own told. */
  predicate Tells(steps: seq<Action>, k: nat)
    requires k < |steps|
  {
    && steps[k].Call? && SwapOf(steps, k) >= 0
    && MovedAtLoad(steps, k) != Told(steps[..SwapOf(steps, k)])
  }

  lemma SameInPrefix(steps: seq<Action>, n: nat, k: nat)
    requires k < n <= |steps|
    ensures steps[..n][k] == steps[k] && (Tells(steps[..n], k) <==> Tells(steps, k))
    ensures !steps[k].Add? ==> LoadOf(steps[..n], k) == LoadOf(steps, k) && SwapOf(steps[..n], k) == SwapOf(steps, k)
    ensures !steps[k].Add? ==> MovedAtLoad(steps[..n], k) == MovedAtLoad(steps, k)
  {
    assert steps[..n][..k] == steps[..k];
    if !steps[k].Add? {
      var i, j := LoadOf(steps, k), SwapOf(steps, k);
      assert i >= 0 ==> steps[..n][..i] == steps[..i];
      assert j >= 0 ==> steps[..n][..j] == steps[..j];
    }
  }

  lemma {:induction false} SumGrows(steps: seq<Action>, i: nat, j: nat)
    requires i <= j <= |steps|
    ensures Sum(steps[..i]) <= Sum(steps[..j])
  {
    if i < j {
      SumGrows(steps, i, j - 1);
      assert steps[..j][..j - 1] == steps[..j - 1];
    }
  }

  /** More had moved only before a later load. */
  lemma MovedMoreIsLater(steps: seq<Action>, k: nat, k': nat)
    requires k < |steps| && k' < |steps| && !steps[k].Add? && !steps[k'].Add?
    requires MovedAtLoad(steps, k) < MovedAtLoad(steps, k')
    ensures LoadOf(steps, k) < LoadOf(steps, k')
  {
    var i, i' := LoadOf(steps, k), LoadOf(steps, k');
    if 0 <= i' <= i {
      SumGrows(steps, i', i);
    }
  }

  // ----- every interleaving

  lemma Before(steps: seq<Action>)
    requires Run(steps).Some? && steps != []
    ensures var n := |steps| - 1;
            Run(steps[..n]).Some? && Enabled(Run(steps[..n]).value, steps[n]) &&
            Run(steps).value == Step(Run(steps[..n]).value, steps[n])
  {
  }

  /** The count is the saturated sum of everything added. */
  lemma {:induction false} CountIsSum(steps: seq<Action>)
    requires Run(steps).Some?
    ensures Run(steps).value.moved == Saturated(Sum(steps))
    ensures Run(steps).value.moved == if Sum(steps) < 0x1_0000_0000_0000_0000 then Sum(steps) else 0xFFFF_FFFF_FFFF_FFFF
  {
    if steps != [] {
      Before(steps);
      CountIsSum(steps[..|steps| - 1]);
    }
  }

  /** The report of `r` is the one its last load began, told apart by whether it has swapped. */
  ghost predicate ReportIs(steps: seq<Action>, r: Reporter, report: Report) {
    var i, j := LastOf(steps, Load(r)), LastOf(steps, Swap(r));
    && 0 <= i && report.now == MovedBefore(steps, i)
    && (report.Loaded? ==> j < i)
    && (report.Swapped? ==> i < j && report.changed == (report.now != Told(steps[..j])))
  }

  /** In any interleaving a report under way holds the count as it stood at its load, the
      value told is that of the last swap, and a swap knows whether it brought news. */
  lemma {:induction false} FlightIsCountAtLoad(steps: seq<Action>)
    requires Run(steps).Some?
    ensures Run(steps).value.told == Told(steps)
    ensures forall r :: r in Run(steps).value.flight ==> ReportIs(steps, r, Run(steps).value.flight[r])
  {
    if steps != [] {
      hide LastOf, Told, MovedBefore, ReportIs;
      var n := |steps| - 1;
      Before(steps);
      FlightIsCountAtLoad(steps[..n]);
      var p, s := Run(steps[..n]).value, Run(steps).value;
      forall r | r in s.flight
        ensures ReportIs(steps, r, s.flight[r])
      {
        StepKeepsReport(steps, n, p, r);
      }
      ToldNext(steps, n, p);
    }
  }

  lemma ToldNext(steps: seq<Action>, n: nat, p: State)
    requires |steps| == n + 1 && Enabled(p, steps[n]) && p.told == Told(steps[..n])
    requires steps[n].Swap? ==> ReportIs(steps[..n], steps[n].who, p.flight[steps[n].who])
    ensures Step(p, steps[n]).told == Told(steps)
  {
    if steps[n].Swap? {
      var i := LoadOf(steps, n);
      assert steps[..n][..i] == steps[..i];
    }
  }

  lemma StepKeepsReport(steps: seq<Action>, n: nat, p: State, r: Reporter)
    requires |steps| == n + 1 && Enabled(p, steps[n]) && r in Step(p, steps[n]).flight
    requires Run(steps[..n]) == Some(p) && p.told == Told(steps[..n])
    requires r in p.flight ==> ReportIs(steps[..n], r, p.flight[r])
    ensures ReportIs(steps, r, Step(p, steps[n]).flight[r])
  {
    hide Told, Run;
    var i, j := LastOf(steps[..n], Load(r)), LastOf(steps[..n], Swap(r));
    assert LastOf(steps, Load(r)) == if steps[n] == Load(r) then n else i;
    assert LastOf(steps, Swap(r)) == if steps[n] == Swap(r) then n else j;
    CountIsSum(steps[..n]);
    assert 0 <= i ==> steps[..n][..i] == steps[..i];
    assert 0 <= j ==> steps[..n][..j] == steps[..j];
  }

  // ----- the two logs

  /** Which steps are logged: every swap, or every call that tells. */
  datatype Log = Swaps | Calls

  predicate Logged(steps: seq<Action>, k: nat, log: Log)
    requires k < |steps|
  {
    match log
    case Swaps => steps[k].Swap?
    case Calls => Tells(steps, k)
  }

  function Values(steps: seq<Action>, log: Log): seq<int> {
    if steps == [] then []
    else
      var n := |steps| - 1;
      if Logged(steps, n, log) then Values(steps[..n], log) + [MovedAtLoad(steps, n)] else Values(steps[..n], log)
  }

  lemma {:induction false} ToldIsLastSwap(steps: seq<Action>)
    ensures Told(steps) == Last(0, Values(steps, Swaps))
  {
    if steps != [] {
      ToldIsLastSwap(steps[..|steps| - 1]);
    }
  }

  /** The totals emitted are what had moved before the loads of the calls that tell. */
  lemma {:induction false} EmittedIsLogged(steps: seq<Action>)
    requires Run(steps).Some?
    ensures Run(steps).value.emitted == Values(steps, Calls)
  {
    if steps != [] {
      var n := |steps| - 1;
      Before(steps);
      EmittedIsLogged(steps[..n]);
      if steps[n].Call? {
        CallTells(steps, n);
      }
    }
  }

  lemma CallTells(steps: seq<Action>, n: nat)
    requires |steps| == n + 1 && steps[n].Call? && Run(steps).Some? && Run(steps[..n]).Some?
    requires Enabled(Run(steps[..n]).value, steps[n])
    ensures var report := Run(steps[..n]).value.flight[steps[n].who];
            report.changed == Tells(steps, n) && report.now == MovedAtLoad(steps, n)
  {
    hide Told, Run;
    FlightIsCountAtLoad(steps[..n]);
    var i, j := LoadOf(steps, n), SwapOf(steps, n);
    assert ReportIs(steps[..n], steps[n].who, Run(steps[..n]).value.flight[steps[n].who]);
    assert steps[..n][..i] == steps[..i] && steps[..n][..j] == steps[..j];
  }

  ghost predicate Rising(steps: seq<Action>, log: Log) {
    && (forall k :: 0 <= k < |steps| && Logged(steps, k, log) ==> 0 < MovedAtLoad(steps, k))
    && (forall k, k' :: 0 <= k < k' < |steps| && Logged(steps, k, log) && Logged(steps, k', log) ==>
          MovedAtLoad(steps, k) < MovedAtLoad(steps, k'))
  }

  ghost predicate NeverFalling(steps: seq<Action>, log: Log) {
    forall k, k' :: 0 <= k < k' < |steps| && Logged(steps, k, log) && Logged(steps, k', log) ==>
      MovedAtLoad(steps, k) <= MovedAtLoad(steps, k')
  }

  lemma LoggedInPrefix(steps: seq<Action>, n: nat, log: Log)
    requires n <= |steps|
    ensures forall k :: 0 <= k < n ==> (Logged(steps[..n], k, log) <==> Logged(steps, k, log))
    ensures forall k :: 0 <= k < n && Logged(steps, k, log) ==>
              MovedAtLoad(steps[..n], k) == MovedAtLoad(steps, k) >= 0
  {
    forall k | 0 <= k < n
      ensures Logged(steps[..n], k, log) <==> Logged(steps, k, log)
      ensures !steps[k].Add? ==> MovedAtLoad(steps[..n], k) == MovedAtLoad(steps, k)
    {
      SameInPrefix(steps, n, k);
    }
  }

  /** The last value of a log that never falls is its largest, and is logged somewhere. */
  lemma {:induction false} LastIsMost(steps: seq<Action>, log: Log) returns (most: int)
    requires NonDecreasing(0, Values(steps, log))
    ensures forall k :: 0 <= k < |steps| && Logged(steps, k, log) ==>
              MovedAtLoad(steps, k) <= Last(0, Values(steps, log))
    ensures -1 <= most < |steps|
    ensures most >= 0 ==> Logged(steps, most, log) && MovedAtLoad(steps, most) == Last(0, Values(steps, log))
    ensures most < 0 ==> Values(steps, log) == []
  {
    most := -1;
    if steps != [] {
      hide Logged, MovedAtLoad;
      var n := |steps| - 1;
      var before := Values(steps[..n], log);
      if Logged(steps, n, log) {
        Snoc(0, before, MovedAtLoad(steps, n));
      }
      most := LastIsMost(steps[..n], log);
      LoggedInPrefix(steps, n, log);
      if Logged(steps, n, log) {
        most := n;
      }
    }
  }

  /** What the last step adds to either order. */
  lemma OrderNext(steps: seq<Action>, n: nat, log: Log)
    requires |steps| == n + 1
    ensures Logged(steps, n, log) ==> MovedAtLoad(steps, n) >= 0
    ensures Rising(steps, log) <==>
            && Rising(steps[..n], log)
            && (Logged(steps, n, log) ==> 0 < MovedAtLoad(steps, n) && AllBelow(steps, n, log, true))
    ensures NeverFalling(steps, log) <==>
            NeverFalling(steps[..n], log) && (Logged(steps, n, log) ==> AllBelow(steps, n, log, false))
  {
    hide Logged, MovedAtLoad;
    LoggedInPrefix(steps, n, log);
    LoggedInPrefix(steps, n + 1, log);
  }

  /** What is logged before step `n` is below what is logged there. */
  ghost predicate AllBelow(steps: seq<Action>, n: nat, log: Log, strictly: bool)
    requires n < |steps| && Logged(steps, n, log)
  {
    var v := MovedAtLoad(steps, n);
    forall k :: 0 <= k < n && Logged(steps, k, log) ==>
      if strictly then MovedAtLoad(steps, k) < v else MovedAtLoad(steps, k) <= v
  }

  lemma BelowIffLast(steps: seq<Action>, n: nat, log: Log)
    requires |steps| == n + 1 && Logged(steps, n, log) && NonDecreasing(0, Values(steps[..n], log))
    ensures var last, v := Last(0, Values(steps[..n], log)), MovedAtLoad(steps, n);
            && (last < v <==> 0 < v && AllBelow(steps, n, log, true))
            && (last <= v <==> AllBelow(steps, n, log, false))
  {
    hide Logged, MovedAtLoad, Values;
    var most := LastIsMost(steps[..n], log);
    LoggedInPrefix(steps, n, log);
    LoggedInPrefix(steps, n + 1, log);
    assert steps[..n + 1] == steps;
  }

  lemma {:induction false} LogRisesIff(steps: seq<Action>, log: Log)
    ensures StrictlyIncreasing(0, Values(steps, log)) <==> Rising(steps, log)
    ensures NonDecreasing(0, Values(steps, log)) <==> NeverFalling(steps, log)
  {
    if steps != [] {
      hide Logged, MovedAtLoad, Rising, NeverFalling, AllBelow;
      var n := |steps| - 1;
      var before := Values(steps[..n], log);
      LogRisesIff(steps[..n], log);
      OrderNext(steps, n, log);
      if Logged(steps, n, log) {
        Snoc(0, before, MovedAtLoad(steps, n));
        if NonDecreasing(0, before) {
          BelowIffLast(steps, n, log);
        }
      }
    }
  }

  // ----- which interleavings regress

  /** Every call that tells has traffic before its load, and of any two the later one's load
      stands behind the earlier one's, with traffic between the two. */
  ghost predicate CallsInOrder(steps: seq<Action>) {
    && (forall k :: 0 <= k < |steps| && Tells(steps, k) ==> 0 < MovedAtLoad(steps, k))
    && (forall k, k' :: 0 <= k < k' < |steps| && Tells(steps, k) && Tells(steps, k') ==>
          LoadOf(steps, k) < LoadOf(steps, k') && MovedAtLoad(steps, k) < MovedAtLoad(steps, k'))
  }

  /** Totals increase strictly in exactly those interleavings in which the calls that tell
      come in the order of their loads, with traffic between those. */
  lemma MonotoneIff(steps: seq<Action>)
    requires Run(steps).Some?
    ensures StrictlyIncreasing(0, Run(steps).value.emitted) <==> CallsInOrder(steps)
  {
    hide Run, LoadOf, SwapOf, MovedAtLoad, Told, Values;
    EmittedIsLogged(steps);
    LogRisesIff(steps, Calls);
    if Rising(steps, Calls) {
      forall k, k' | 0 <= k < k' < |steps| && Tells(steps, k) && Tells(steps, k')
        ensures LoadOf(steps, k) < LoadOf(steps, k') && MovedAtLoad(steps, k) < MovedAtLoad(steps, k')
      {
        InOrder(steps, k, k');
      }
    }
    if CallsInOrder(steps) {
      assert forall k :: 0 <= k < |steps| && Logged(steps, k, Calls) ==> Tells(steps, k);
    }
  }

  lemma InOrder(steps: seq<Action>, k: nat, k': nat)
    requires k < k' < |steps| && Tells(steps, k) && Tells(steps, k') && Rising(steps, Calls)
    ensures LoadOf(steps, k) < LoadOf(steps, k') && MovedAtLoad(steps, k) < MovedAtLoad(steps, k')
  {
    assert Logged(steps, k, Calls) && Logged(steps, k', Calls);
    MovedMoreIsLater(steps, k, k');
  }

  /** No report swaps behind one that loaded after it, with traffic between the two loads. */
  ghost predicate NoneOvertaken(steps: seq<Action>) {
    forall k, k' :: 0 <= k < k' < |steps| && steps[k].Swap? && steps[k'].Swap? ==>
      !(LoadOf(steps, k') < LoadOf(steps, k) && MovedAtLoad(steps, k') < MovedAtLoad(steps, k))
  }

  lemma NoneOvertakenIff(steps: seq<Action>)
    ensures NoneOvertaken(steps) <==> NeverFalling(steps, Swaps)
  {
    hide LoadOf, MovedAtLoad;
    forall k, k' | 0 <= k < k' < |steps| && steps[k].Swap? && steps[k'].Swap? &&
                   MovedAtLoad(steps, k') < MovedAtLoad(steps, k)
      ensures LoadOf(steps, k') < LoadOf(steps, k)
    {
      MovedMoreIsLater(steps, k', k);
    }
    if NoneOvertaken(steps) {
      forall k, k' | 0 <= k < k' < |steps| && Logged(steps, k, Swaps) && Logged(steps, k', Swaps)
        ensures MovedAtLoad(steps, k) <= MovedAtLoad(steps, k')
      {
        assert steps[k].Swap? && steps[k'].Swap?;
      }
    }
    if NeverFalling(steps, Swaps) {
      forall k, k' | 0 <= k < k' < |steps| && steps[k].Swap? && steps[k'].Swap?
        ensures MovedAtLoad(steps, k) <= MovedAtLoad(steps, k')
      {
        assert Logged(steps, k, Swaps) && Logged(steps, k', Swaps);
      }
    }
  }

  /** Nothing comes between a swap and the hook. */
  predicate Prompt(steps: seq<Action>) {
    forall j :: 0 <= j < |steps| - 1 && steps[j].Swap? ==> steps[j + 1] == Call(steps[j].who)
  }

  lemma PromptPrefix(steps: seq<Action>, n: nat)
    requires Prompt(steps) && n <= |steps|
    ensures Prompt(steps[..n])
  {
    forall j | 0 <= j < n - 1 && steps[..n][j].Swap?
      ensures steps[..n][j + 1] == Call(steps[..n][j].who)
    {
      assert steps[..n][j] == steps[j] && steps[..n][j + 1] == steps[j + 1];
    }
  }

  /** The only report that may have swapped is the one that has just done so. */
  lemma {:induction false} PromptFlight(steps: seq<Action>, r: Reporter)
    requires Run(steps).Some? && Prompt(steps) && r in Run(steps).value.flight && Run(steps).value.flight[r].Swapped?
    ensures steps[|steps| - 1] == Swap(r)
  {
    var n := |steps| - 1;
    Before(steps);
    PromptPrefix(steps, n);
    if steps[n] != Swap(r) {
      PromptFlight(steps[..n], r);
    }
  }

  /** Where the hook is called directly behind the swap, the totals increase strictly if and
      only if no swap is overtaken. */
  lemma {:induction false} PromptMonotone(steps: seq<Action>)
    requires Run(steps).Some? && Prompt(steps) && (steps != [] ==> !steps[|steps| - 1].Swap?)
    ensures Told(steps) == Last(0, Values(steps, Calls))
    ensures StrictlyIncreasing(0, Values(steps, Calls)) <==> NonDecreasing(0, Values(steps, Swaps))
    decreases |steps|
  {
    if steps != [] {
      var n := |steps| - 1;
      Before(steps);
      PromptPrefix(steps, n);
      if steps[n].Call? {
        PromptFlight(steps[..n], steps[n].who);
        assert steps[n - 1] == steps[..n][n - 1] == Swap(steps[n].who);
        Before(steps[..n]);
        assert steps[..n][..n - 1] == steps[..n - 1];
        PromptPrefix(steps, n - 1);
        PromptMonotone(steps[..n - 1]);
        PromptCall(steps, n);
      } else {
        PromptMonotone(steps[..n]);
      }
    }
  }

  lemma PromptCall(steps: seq<Action>, n: nat)
    requires 0 < n == |steps| - 1 && steps[n].Call? && steps[n - 1] == Swap(steps[n].who)
    requires var p := steps[..n - 1];
             && Told(p) == Last(0, Values(p, Calls))
             && (StrictlyIncreasing(0, Values(p, Calls)) <==> NonDecreasing(0, Values(p, Swaps)))
    ensures Told(steps) == Last(0, Values(steps, Calls))
    ensures StrictlyIncreasing(0, Values(steps, Calls)) <==> NonDecreasing(0, Values(steps, Swaps))
  {
    var p, q, r := steps[..n - 1], steps[..n], steps[n].who;
    assert q[..n - 1] == p && q[n - 1] == Swap(r);
    SameInPrefix(steps, n, n - 1);
    var v := MovedAtLoad(steps, n);
    assert v == MovedAtLoad(steps, n - 1) by {
      assert LastOf(q, Load(r)) == LastOf(p, Load(r));
    }
    assert SwapOf(steps, n) == n - 1;
    assert Values(q, Swaps) == Values(p, Swaps) + [v] && Values(q, Calls) == Values(p, Calls);
    ToldIsLastSwap(p);
    Snoc(0, Values(p, Swaps), v);
    Snoc(0, Values(p, Calls), v);
  }

  lemma PromptMonotoneIff(steps: seq<Action>)
    requires Run(steps).Some? && Prompt(steps) && (steps != [] ==> !steps[|steps| - 1].Swap?)
    ensures StrictlyIncreasing(0, Run(steps).value.emitted) <==> NoneOvertaken(steps)
  {
    hide Run, Values, Told;
    EmittedIsLogged(steps);
    PromptMonotone(steps);
    LogRisesIff(steps, Swaps);
    NoneOvertakenIff(steps);
  }

  /** Every total emitted, in any interleaving, is the count as it stood at a report's load. */
  lemma {:induction false} EmittedWasLoaded(steps: seq<Action>, k: nat) returns (i: nat)
    requires Run(steps).Some? && k < |Run(steps).value.emitted|
    ensures i < |steps| && steps[i].Load? && Run(steps).value.emitted[k] == Saturated(Sum(steps[..i]))
  {
    var n := |steps| - 1;
    Before(steps);
    if k < |Run(steps[..n]).value.emitted| {
      i := EmittedWasLoaded(steps[..n], k);
      assert steps[..n][..i] == steps[..i];
    } else {
      FlightIsCountAtLoad(steps[..n]);
      var r := steps[n].who;
      assert ReportIs(steps[..n], r, Run(steps[..n]).value.flight[r]);
      i := LastOf(steps[..n], Load(r));
      assert steps[..n][..i] == steps[..i];
    }
  }

  // ----- one report at a time

  ghost predicate InFlightOrdered(s: State, report: Report) {
    match report
    case Loaded(now) => Last(0, s.emitted) == s.told <= now <= s.moved
    case Swapped(now, changed) =>
      now == s.told && if changed then Last(0, s.emitted) < now else Last(0, s.emitted) == now
  }

  ghost predicate Ordered(s: State) {
    && StrictlyIncreasing(0, s.emitted)
    && s.told <= s.moved <= MAX_U64
    && (s.flight == map[] ==> Last(0, s.emitted) == s.told)
    && forall r :: r in s.flight ==> InFlightOrdered(s, s.flight[r])
  }

  lemma SingletonFlight(flight: map<Reporter, Report>, r: Reporter)
    requires |flight| <= 1 && r in flight
    ensures flight - {r} == map[] && flight.Keys == {r}
  {
    var others := flight.Keys - {r};
    assert |others| == |flight.Keys| - 1;
    assert (flight - {r}).Keys == others;
    assert flight.Keys == others + {r};
  }

  lemma StepOrdered(s: State, a: Action)
    requires Ordered(s) && Enabled(s, a) && |s.flight| <= 1 && |Step(s, a).flight| <= 1
    ensures Ordered(Step(s, a))
  {
    var s' := Step(s, a);
    match a
    case Add(_) =>
    case Load(r) =>
      SingletonFlight(s'.flight, r);
      assert s.flight == map[] by {
        assert s.flight.Keys <= s'.flight.Keys;
      }
    case Swap(r) =>
      SingletonFlight(s.flight, r);
    case Call(r) =>
      SingletonFlight(s.flight, r);
      Snoc(0, s.emitted, s.flight[r].now);
  }

  lemma {:induction false} SingleFlightIsOrdered(steps: seq<Action>)
    requires Run(steps).Some? && SingleFlight(steps)
    ensures Ordered(Run(steps).value)
  {
    if steps != [] {
      hide Ordered, Step;
      var n := |steps| - 1;
      Before(steps);
      assert SingleFlight(steps[..n]) by {
        forall k | 0 <= k <= n && Run(steps[..n][..k]).Some?
          ensures |Run(steps[..n][..k]).value.flight| <= 1
        {
          assert steps[..n][..k] == steps[..k];
        }
      }
      SingleFlightIsOrdered(steps[..n]);
      assert steps[..n + 1] == steps;
      StepOrdered(Run(steps[..n]).value, steps[n]);
    } else {
      assert Ordered(INITIAL);
    }
  }

  /** With one report at a time, from load to hook, the emitted totals increase strictly, from
      above zero and never past what has moved: no event for traffic that did not happen. */
  lemma ProgressIsMonotone(steps: seq<Action>)
    requires Run(steps).Some? && SingleFlight(steps)
    ensures var s := Run(steps).value;
            StrictlyIncreasing(0, s.emitted) && Last(0, s.emitted) <= Saturated(Sum(steps))
  {
    hide Run;
    SingleFlightIsOrdered(steps);
    CountIsSum(steps);
    LastTold(Run(steps).value);
  }

  lemma LastTold(s: State)
    requires Ordered(s)
    ensures Last(0, s.emitted) <= s.told
  {
    if s.flight != map[] {
      var r :| r in s.flight;
      assert InFlightOrdered(s, s.flight[r]);
    }
  }

  /** A last report after everything has moved tells the whole sum, or nothing of nothing. */
  lemma FinalReportTellsTheSum(steps: seq<Action>, r: Reporter)
    requires Run(steps).Some? && SingleFlight(steps) && Run(steps).value.flight == map[]
    ensures var s := Run(steps + [Load(r)] + [Swap(r)] + [Call(r)]);
            && s.Some? && Last(0, s.value.emitted) == Saturated(Sum(steps))
            && (s.value.emitted == [] <==> Sum(steps) == 0)
  {
    var s := Run(steps).value;
    SingleFlightIsOrdered(steps);
    CountIsSum(steps);
    RunNext(steps, Load(r));
    RunNext(steps + [Load(r)], Swap(r));
    RunNext(steps + [Load(r)] + [Swap(r)], Call(r));
    hide Run;
    if s.emitted != [] {
      StrictlyPositive(s.emitted);
    }
  }

  lemma {:induction false} StrictlyPositive(s: seq<int>)
    requires s != [] && StrictlyIncreasing(0, s)
    ensures s[|s| - 1] > 0
  {
    if |s| > 1 {
      StrictlyPositive(s[..|s| - 1]);
    }
  }

  // ----- the handover from the exchange to the response body

  const REPORTING: Reporter := 0
  const COUNTING: Reporter := 1

  /** One poll of the exchange future, or of the response body it came to. */
  datatype Poll = ExchangePoll | BodyPoll

  function Who(p: Poll): Reporter {
    if p.ExchangePoll? then REPORTING else COUNTING
  }

  /** What the polls do to the send meter: each borrows its future or body exclusively, and
      the body is what the last poll of the future returned, so they come one by one. */
  function ReportsOf(polls: seq<Poll>): seq<Action> {
    seq(3 * |polls|, j requires 0 <= j < 3 * |polls| =>
          var who := Who(polls[j / 3]);
          if j % 3 == 0 then Load(who) else if j % 3 == 1 then Swap(who) else Call(who))
  }

  /** The steps that are not adds. */
  function Reports(steps: seq<Action>): seq<Action> {
    if steps == [] then []
    else Reports(steps[..|steps| - 1]) + if steps[|steps| - 1].Add? then [] else [steps[|steps| - 1]]
  }

  /** Between polls nothing is in flight, and inside one only its own report. */
  lemma {:induction false} OnlyThePollReports(steps: seq<Action>, polls: seq<Poll>)
    requires Reports(steps) <= ReportsOf(polls)
    ensures Run(steps).Some?
    ensures var m := |Reports(steps)|;
            var flight := Run(steps).value.flight;
            if m % 3 == 0 then flight == map[]
            else
              var who := Who(polls[m / 3]);
              flight.Keys == {who} && (if m % 3 == 1 then flight[who].Loaded? else flight[who].Swapped?)
  {
    if steps != [] {
      var n := |steps| - 1;
      var before := Reports(steps[..n]);
      assert before <= Reports(steps);
      OnlyThePollReports(steps[..n], polls);
      if !steps[n].Add? {
        assert steps[n] == Reports(steps)[|before|] == ReportsOf(polls)[|before|];
      }
    }
  }

  lemma {:induction false} ReportsOfPrefix(steps: seq<Action>, k: nat)
    requires k <= |steps|
    ensures Reports(steps[..k]) <= Reports(steps)
  {
    if k == |steps| {
      assert steps[..k] == steps;
    } else {
      assert steps[..|steps| - 1][..k] == steps[..k];
      ReportsOfPrefix(steps[..|steps| - 1], k);
    }
  }

  /** The handover: however adds fall between the loads and swaps that the polls of the
      exchange and then of its body make, cut off anywhere, every step can be taken and no
      two reports overlap, so the totals go on increasing strictly across the handover. */
  lemma HandoverIsSingleFlight(steps: seq<Action>, polls: seq<Poll>)
    requires Reports(steps) <= ReportsOf(polls)
    ensures Run(steps).Some? && SingleFlight(steps)
    ensures StrictlyIncreasing(0, Run(steps).value.emitted)
  {
    OnlyThePollReports(steps, polls);
    forall k | 0 <= k <= |steps|
      ensures Run(steps[..k]).Some? && |Run(steps[..k]).value.flight.Keys| <= 1
    {
      ReportsOfPrefix(steps, k);
      OnlyThePollReports(steps[..k], polls);
    }
    ProgressIsMonotone(steps);
  }

  lemma RunNext(steps: seq<Action>, a: Action)
    requires Run(steps).Some? && Enabled(Run(steps).value, a)
    ensures Run(steps + [a]) == Some(Step(Run(steps).value, a))
  {
    assert (steps + [a])[..|steps|] == steps;
  }

  /** Two overlapping reports can tell a smaller total behind a larger one. */
  lemma OverlappingReportsRegress()
    ensures var steps := [Add(1), Load(0), Add(1), Load(1), Swap(1), Call(1), Swap(0), Call(0)];
            Run(steps).Some? && Run(steps).value.emitted == [2, 1]
  {
    var s1 := [Add(1), Load(0), Add(1), Load(1)];
    var s2 := s1 + [Swap(1)];
    var s3 := s2 + [Call(1)];
    var s4 := s3 + [Swap(0)];
    TwoLoads(s1);
    RunNext(s1, Swap(1));
    RunNext(s2, Call(1));
    RunNext(s3, Swap(0));
    RunNext(s4, Call(0));
    assert s4 + [Call(0)] == [Add(1), Load(0), Add(1), Load(1), Swap(1), Call(1), Swap(0), Call(0)];
  }

  lemma TwoLoads(steps: seq<Action>)
    requires steps == [Add(1), Load(0), Add(1), Load(1)]
    ensures Run(steps) == Some(State(2, 0, map[0 := Loaded(1), 1 := Loaded(2)], []))
  {
    RunNext([], Add(1));
    RunNext([] + [Add(1)], Load(0));
    RunNext([] + [Add(1)] + [Load(0)], Add(1));
    RunNext([] + [Add(1)] + [Load(0)] + [Add(1)], Load(1));
    assert [] + [Add(1)] + [Load(0)] + [Add(1)] + [Load(1)] == steps;
  }

  /** The loads and swaps of one report may all stand before those of the next, and the hook
      still hear the smaller total last: what overlaps is the call. */
  lemma LateCallRegresses()
    ensures var steps := [Add(1), Load(0), Swap(0), Add(1), Load(1), Swap(1), Call(1), Call(0)];
            Run(steps).Some? && Run(steps).value.emitted == [2, 1] && NoneOvertaken(steps)
  {
    var steps := [Add(1), Load(0), Swap(0), Add(1), Load(1), Swap(1), Call(1), Call(0)];
    LateCallRuns(steps);
    LateCallOvertakesNoSwap(steps);
  }

  lemma LateCallRuns(steps: seq<Action>)
    requires steps == [Add(1), Load(0), Swap(0), Add(1), Load(1), Swap(1), Call(1), Call(0)]
    ensures Run(steps).Some? && Run(steps).value.emitted == [2, 1]
  {
    var s1 := [Add(1), Load(0), Swap(0)];
    var s2 := s1 + [Add(1)];
    var s3 := s2 + [Load(1)];
    var s4 := s3 + [Swap(1)];
    var s5 := s4 + [Call(1)];
    OneSwapped(s1);
    hide Run;
    RunNext(s1, Add(1));
    RunNext(s2, Load(1));
    RunNext(s3, Swap(1));
    RunNext(s4, Call(1));
    RunNext(s5, Call(0));
    assert s5 + [Call(0)] == steps;
  }

  lemma OneSwapped(steps: seq<Action>)
    requires steps == [Add(1), Load(0), Swap(0)]
    ensures Run(steps) == Some(State(1, 1, map[0 := Swapped(1, true)], []))
  {
    RunNext([], Add(1));
    RunNext([] + [Add(1)], Load(0));
    RunNext([] + [Add(1)] + [Load(0)], Swap(0));
    assert [] + [Add(1)] + [Load(0)] + [Swap(0)] == steps;
    assert map[0 := Loaded(1)][0 := Swapped(1, true)] == map[0 := Swapped(1, true)];
  }

  lemma LateCallOvertakesNoSwap(steps: seq<Action>)
    requires steps == [Add(1), Load(0), Swap(0), Add(1), Load(1), Swap(1), Call(1), Call(0)]
    ensures NoneOvertaken(steps)
  {
    hide MovedAtLoad;
    assert steps[..2][1] == Load(0) && steps[..5][4] == Load(1);
    assert LoadOf(steps, 2) == 1 && LoadOf(steps, 5) == 4;
  }

  // ----- the response body that counts what it yields

  /** What one poll of the wrapped body came to. */
  datatype Polled = Pending | Data(len: nat) | Trailers | Failed | End

  datatype Direction = Sending | Receiving

  datatype Progress = Progress(direction: Direction, transferred: int)

  /** One poll, and what the request body sent since the last one. */
  datatype Turn = Turn(polled: Polled, uploaded: nat)

  class Meter {
    var moved: int
    var told: int

    constructor ()
      ensures moved == told == 0
    {
      moved, told := 0, 0;
    }

    method Add(n: nat)
      modifies this
      ensures moved == Saturated(old(moved) + n) && told == old(told)
    {
      moved := Saturated(moved + n);
    }

    /** Load and swap with nothing in between. */
    method Report(direction: Direction) returns (event: seq<Progress>)
      modifies this
      ensures moved == told == old(moved)
      ensures event == if old(told) == moved then [] else [Progress(direction, moved)]
    {
      var now := moved;
      var was := told;
      told := now;
      if was == now {
        return [];
      }
      event := [Progress(direction, now)];
    }
  }

  /** The totals of `direction` among the events, in order. */
  function Totals(events: seq<Progress>, direction: Direction): seq<int> {
    if events == [] then []
    else
      var e := events[|events| - 1];
      Totals(events[..|events| - 1], direction) + if e.direction == direction then [e.transferred] else []
  }

  function Received(turns: seq<Turn>): nat {
    if turns == [] then 0
    else Received(turns[..|turns| - 1]) + if turns[|turns| - 1].polled.Data? then turns[|turns| - 1].polled.len else 0
  }

  function Uploaded(turns: seq<Turn>): nat {
    if turns == [] then 0 else Uploaded(turns[..|turns| - 1]) + turns[|turns| - 1].uploaded
  }

  /** One total behind each non-empty data frame until the count saturates. */
  function ReceivingTotals(turns: seq<Turn>): seq<int> {
    if turns == [] then []
    else
      var n := |turns| - 1;
      ReceivingTotals(turns[..n]) +
      if turns[n].polled.Data? && turns[n].polled.len > 0 && Received(turns[..n]) < MAX_U64
      then [Saturated(Received(turns))] else []
  }

  /** One total behind each poll before which something was sent, on a meter at `moved`; the
      first poll also tells what was still untold of it. */
  function SendingTotals(turns: seq<Turn>, moved: int, told: int): seq<int> {
    if turns == [] then []
    else
      var n := |turns| - 1;
      var total := Saturated(moved + Uploaded(turns));
      SendingTotals(turns[..n], moved, told) +
      if (if n == 0 then total != told else turns[n].uploaded > 0 && moved + Uploaded(turns[..n]) < MAX_U64)
      then [total] else []
  }

  lemma TotalsAppend(events: seq<Progress>, more: seq<Progress>, direction: Direction)
    requires |more| <= 1
    ensures Totals(events + more, direction) ==
            Totals(events, direction) +
            if more != [] && more[0].direction == direction then [more[0].transferred] else []
  {
    if more == [] {
      assert events + more == events;
    } else {
      assert (events + more)[..|events|] == events;
    }
  }

  class Counting {
    const recv: Option<Meter>
    const sent: Option<Meter>
    var events: seq<Progress>

    constructor (watched: bool, sent: Option<Meter>)
      ensures events == [] && this.sent == sent && (recv.Some? <==> watched)
      ensures recv.Some? ==> fresh(recv.value) && recv.value.moved == recv.value.told == 0
    {
      if watched {
        var m := new Meter();
        recv := Some(m);
      } else {
        recv := None;
      }
      this.sent := sent;
      events := [];
    }

    method PollFrame(polled: Polled) returns (out: Polled)
      requires recv.Some? && sent.Some? ==> recv.value != sent.value
      modifies this, if recv.Some? then {recv.value} else {}, if sent.Some? then {sent.value} else {}
      ensures out == polled
      ensures recv.None? ==> events == old(events)
      ensures recv.None? && sent.Some? ==> unchanged(sent.value)
      ensures recv.Some? ==>
                recv.value.told == recv.value.moved ==
                  if polled.Data? then Saturated(old(recv.value.moved) + polled.len) else old(recv.value.moved)
      ensures recv.Some? && sent.Some? ==> sent.value.told == sent.value.moved == old(sent.value.moved)
      ensures recv.Some? ==>
                Totals(events, Receiving) == old(Totals(events, Receiving)) +
                  if recv.value.moved == old(recv.value.told) then [] else [recv.value.moved]
      ensures recv.Some? && sent.Some? ==>
                Totals(events, Sending) == old(Totals(events, Sending)) +
                  if sent.value.moved == old(sent.value.told) then [] else [sent.value.moved]
      ensures recv.Some? && sent.None? ==> Totals(events, Sending) == old(Totals(events, Sending))
    {
      out := polled;
      if recv.None? {
        return;
      }
      if polled.Data? {
        recv.value.Add(polled.len);
      }
      Emit(recv.value, Receiving);
      if sent.Some? {
        Emit(sent.value, Sending);
      }
    }

    method Emit(m: Meter, direction: Direction)
      modifies this, m
      ensures m.moved == m.told == old(m.moved)
      ensures forall d :: Totals(events, d) == old(Totals(events, d)) +
                                               if d == direction && m.moved != old(m.told) then [m.moved] else []
    {
      var e := m.Report(direction);
      forall d
        ensures Totals(events + e, d) == Totals(events, d) + if d == direction && e != [] then [m.moved] else []
      {
        TotalsAppend(events, e, d);
      }
      events := events + e;
    }
  }

  lemma NoTotals(moved: int, told: int)
    ensures Received([]) == Uploaded([]) == 0
    ensures ReceivingTotals([]) == SendingTotals([], moved, told) == []
    ensures forall d :: Totals([], d) == []
  {
  }

  lemma NextTotals(turns: seq<Turn>, k: nat, moved: nat, told: nat)
    requires k < |turns|
    ensures var u, u' := Uploaded(turns[..k]), Uploaded(turns[..k + 1]);
            var total, total' := Saturated(moved + u), Saturated(moved + u');
            && u' == u + turns[k].uploaded
            && SendingTotals(turns[..k + 1], moved, told) ==
               SendingTotals(turns[..k], moved, told) +
               if total' == (if k == 0 then told else total) then [] else [total']
    ensures var v, v' := Received(turns[..k]), Received(turns[..k + 1]);
            && v' == v + (if turns[k].polled.Data? then turns[k].polled.len else 0)
            && ReceivingTotals(turns[..k + 1]) ==
               ReceivingTotals(turns[..k]) + if Saturated(v') == Saturated(v) then [] else [Saturated(v')]
  {
    assert turns[..k + 1][..k] == turns[..k];
  }

  /** A watched body polled to any script, the request body uploading in between on a meter
      that the exchange has already moved and told: what the caller sees is what the inner
      body did, and the events are the running sums. */
  method PollAll(turns: seq<Turn>, moved: nat, told: nat) returns (outs: seq<Polled>, events: seq<Progress>)
    requires moved <= MAX_U64
    ensures |outs| == |turns| && forall i :: 0 <= i < |turns| ==> outs[i] == turns[i].polled
    ensures Totals(events, Receiving) == ReceivingTotals(turns)
    ensures Totals(events, Sending) == SendingTotals(turns, moved, told)
  {
    hide Totals, ReceivingTotals, SendingTotals, Received, Uploaded;
    NoTotals(moved, told);
    var sent := new Meter();
    sent.moved, sent.told := moved, told;
    var body := new Counting(true, Some(sent));
    var recv := body.recv.value;
    outs := [];
    assert turns[..0] == [];
    for k := 0 to |turns|
      invariant fresh(body) && fresh(sent) && fresh(recv) && recv != sent
      invariant body.recv == Some(recv) && body.sent == Some(sent)
      invariant |outs| == k && forall i :: 0 <= i < k ==> outs[i] == turns[i].polled
      invariant recv.told == recv.moved == Saturated(Received(turns[..k]))
      invariant sent.moved == Saturated(moved + Uploaded(turns[..k]))
      invariant sent.told == if k == 0 then told else sent.moved
      invariant Totals(body.events, Receiving) == ReceivingTotals(turns[..k])
      invariant Totals(body.events, Sending) == SendingTotals(turns[..k], moved, told)
    {
      NextTotals(turns, k, moved, told);
      sent.Add(turns[k].uploaded);
      var out := body.PollFrame(turns[k].polled);
      outs := outs + [out];
    }
    assert turns[..|turns|] == turns;
    events := body.events;
  }
}
