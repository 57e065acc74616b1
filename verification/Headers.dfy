/** The effective request headers: the caller's items folded in place over a default agent. */
module Headers {
  import opened Wrappers

  datatype Header = Header(name: string, value: string)

  function LowerChar(c: char): char {
    if 'A' <= c <= 'Z' then (c as int + 32) as char else c
  }

  /** A name up to ASCII case. */
  function Key(name: string): string {
    seq(|name|, i requires 0 <= i < |name| => LowerChar(name[i]))
  }

  const USER_AGENT := "user-agent"

  function Position(out: seq<Header>, name: string): (i: nat)
    ensures i <= |out| && forall j :: 0 <= j < i ==> Key(out[j].name) != Key(name)
    ensures i < |out| ==> Key(out[i].name) == Key(name)
  {
    FirstWhere(out, (h: Header) => Key(h.name) == Key(name))
  }

  /** One item: an empty value removes, another replaces in place or is added behind. */
  function Applied(out: seq<Header>, item: Header): seq<Header> {
    var i := Position(out, item.name);
    if i < |out| then
      if item.value == "" then out[..i] + out[i + 1..] else out[i := item]
    else
      if item.value == "" then out else out + [item]
  }

  function Folded(items: seq<Header>, agent: string): seq<Header> {
    if items == [] then [Header(USER_AGENT, agent)]
    else Applied(Folded(items[..|items| - 1], agent), items[|items| - 1])
  }

  method EffectiveHeaders(items: seq<Header>, agent: string) returns (out: seq<Header>)
    ensures out == Folded(items, agent)
  {
    out := [Header(USER_AGENT, agent)];
    for k := 0 to |items|
      invariant out == Folded(items[..k], agent)
    {
      var item := items[k];
      var i := 0;
      while i < |out| && Key(out[i].name) != Key(item.name)
        invariant i <= |out| && forall j :: 0 <= j < i ==> Key(out[j].name) != Key(item.name)
      {
        i := i + 1;
      }
      assert i == Position(out, item.name);
      if i < |out| && item.value == "" {
        out := out[..i] + out[i + 1..];
      } else if i < |out| {
        out := out[i := item];
      } else if item.value != "" {
        out := out + [item];
      }
      assert items[..k + 1][..k] == items[..k];
    }
    assert items[..|items|] == items;
  }

  // ----- what the items say

  /** The last item of that name, the default standing in front of them all. */
  function Last(items: seq<Header>, agent: string, key: string): Option<Header> {
    if items == [] then
      if key == Key(USER_AGENT) then Some(Header(USER_AGENT, agent)) else None
    else if Key(items[|items| - 1].name) == key then Some(items[|items| - 1])
    else Last(items[..|items| - 1], agent, key)
  }

  predicate Present(items: seq<Header>, agent: string, key: string) {
    Last(items, agent, key).Some? && Last(items, agent, key).value.value != ""
  }

  /** The item at which the name began to be present without a break since; -1 for the default. */
  function Since(items: seq<Header>, agent: string, key: string): int {
    if items == [] then -1
    else
      var n := |items| - 1;
      if Key(items[n].name) == key && !Present(items[..n], agent, key) then n
      else Since(items[..n], agent, key)
  }

  lemma {:induction false} SinceBounds(items: seq<Header>, agent: string, key: string)
    ensures -1 <= Since(items, agent, key) < |items|
  {
    if items != [] {
      SinceBounds(items[..|items| - 1], agent, key);
    }
  }

  ghost predicate Holds(out: seq<Header>, key: string) {
    exists i :: 0 <= i < |out| && Key(out[i].name) == key
  }

  /** `out` holds exactly the names present, each as its last item has it, in the order in
      which their presence began. */
  ghost predicate Describes(out: seq<Header>, items: seq<Header>, agent: string) {
    && (forall i :: 0 <= i < |out| ==>
          Present(items, agent, Key(out[i].name)) && Last(items, agent, Key(out[i].name)) == Some(out[i]))
    && (forall key :: Present(items, agent, key) ==> Holds(out, key))
    && (forall i, j :: 0 <= i < j < |out| ==>
          Since(items, agent, Key(out[i].name)) < Since(items, agent, Key(out[j].name)))
  }

  lemma Others(items: seq<Header>, agent: string, item: Header, key: string)
    ensures Key(item.name) != key ==>
              && Last(items + [item], agent, key) == Last(items, agent, key)
              && Since(items + [item], agent, key) == Since(items, agent, key)
    ensures Last(items + [item], agent, Key(item.name)) == Some(item)
    ensures Since(items + [item], agent, Key(item.name)) ==
            if Present(items, agent, Key(item.name)) then Since(items, agent, Key(item.name)) else |items|
  {
    assert (items + [item])[..|items|] == items;
  }

  /** An entry the item does not name stays described. */
  lemma Kept(out: seq<Header>, items: seq<Header>, agent: string, item: Header, i: nat)
    requires Describes(out, items, agent) && i < |out| && Key(out[i].name) != Key(item.name)
    ensures var items' := items + [item]; var key := Key(out[i].name);
            && Present(items', agent, key) && Last(items', agent, key) == Some(out[i])
            && Since(items', agent, key) == Since(items, agent, key) < |items|
  {
    Others(items, agent, item, Key(out[i].name));
    SinceBounds(items, agent, Key(out[i].name));
  }

  /** Where the entry at `j` was before entry `i` went. */
  function Shifted(i: nat, j: nat): nat {
    if j < i then j else j + 1
  }

  function Dropped(out: seq<Header>, i: nat): seq<Header>
    requires i < |out|
  {
    out[..i] + out[i + 1..]
  }

  lemma RemovedEntry(out: seq<Header>, items: seq<Header>, agent: string, item: Header, i: nat, j: nat)
    requires Describes(out, items, agent) && i < |out| && j < |out| - 1
    requires forall k :: 0 <= k < |out| && k != i ==> Key(out[k].name) != Key(item.name)
    ensures Dropped(out, i)[j] == out[Shifted(i, j)]
    ensures var key := Key(out[Shifted(i, j)].name); var items' := items + [item];
            && Present(items', agent, key) && Last(items', agent, key) == Some(out[Shifted(i, j)])
            && Since(items', agent, key) == Since(items, agent, key)
  {
    Kept(out, items, agent, item, Shifted(i, j));
  }

  lemma RemovedHolds(out: seq<Header>, i: nat, key: string)
    requires i < |out| && Holds(out, key) && Key(out[i].name) != key
    ensures Holds(Dropped(out, i), key)
  {
    var j :| 0 <= j < |out| && Key(out[j].name) == key;
    assert Dropped(out, i)[if j < i then j else j - 1] == out[j];
  }

  lemma Removed(out: seq<Header>, items: seq<Header>, agent: string, item: Header, i: nat)
    requires Describes(out, items, agent) && i < |out| && Key(out[i].name) == Key(item.name) && item.value == ""
    requires forall j :: 0 <= j < |out| && j != i ==> Key(out[j].name) != Key(item.name)
    ensures Describes(Dropped(out, i), items + [item], agent)
  {
    hide Last, Since, Holds, Dropped, Key;
    var out', items' := Dropped(out, i), items + [item];
    assert |out'| == |out| - 1 by { DroppedLength(out, i); }
    forall j | 0 <= j < |out'|
      ensures Present(items', agent, Key(out'[j].name)) && Last(items', agent, Key(out'[j].name)) == Some(out'[j])
    {
      RemovedEntry(out, items, agent, item, i, j);
    }
    forall j, k | 0 <= j < k < |out'|
      ensures Since(items', agent, Key(out'[j].name)) < Since(items', agent, Key(out'[k].name))
    {
      RemovedEntry(out, items, agent, item, i, j);
      RemovedEntry(out, items, agent, item, i, k);
    }
    forall key | Present(items', agent, key)
      ensures Holds(out', key)
    {
      Others(items, agent, item, key);
      RemovedHolds(out, i, key);
    }
  }

  lemma DroppedLength(out: seq<Header>, i: nat)
    requires i < |out|
    ensures |Dropped(out, i)| == |out| - 1
  {
  }

  lemma Replaced(out: seq<Header>, items: seq<Header>, agent: string, item: Header, i: nat)
    requires Describes(out, items, agent) && i < |out| && Key(out[i].name) == Key(item.name) && item.value != ""
    requires forall j :: 0 <= j < |out| && j != i ==> Key(out[j].name) != Key(item.name)
    ensures Describes(out[i := item], items + [item], agent)
  {
    hide Last, Since;
    var out', items' := out[i := item], items + [item];
    Others(items, agent, item, Key(item.name));
    forall j | 0 <= j < |out'|
      ensures var key := Key(out'[j].name);
              && Present(items', agent, key) && Last(items', agent, key) == Some(out'[j])
              && key == Key(out[j].name) && Since(items', agent, key) == Since(items, agent, key)
    {
      if j != i {
        Kept(out, items, agent, item, j);
      }
    }
    forall key | Present(items', agent, key)
      ensures Holds(out', key)
    {
      Others(items, agent, item, key);
      assert Holds(out, key);
      var j :| 0 <= j < |out| && Key(out[j].name) == key;
      assert Key(out'[j].name) == key;
    }
  }

  lemma Added(out: seq<Header>, items: seq<Header>, agent: string, item: Header)
    requires Describes(out, items, agent)
    requires forall j :: 0 <= j < |out| ==> Key(out[j].name) != Key(item.name)
    ensures Describes(if item.value == "" then out else out + [item], items + [item], agent)
  {
    hide Last, Since;
    var out', items' := if item.value == "" then out else out + [item], items + [item];
    assert !Holds(out, Key(item.name));
    Others(items, agent, item, Key(item.name));
    forall j | 0 <= j < |out|
      ensures var key := Key(out[j].name);
              && Present(items', agent, key) && Last(items', agent, key) == Some(out[j])
              && Since(items', agent, key) == Since(items, agent, key) < |items|
    {
      Kept(out, items, agent, item, j);
    }
    forall key | Present(items', agent, key)
      ensures Holds(out', key)
    {
      Others(items, agent, item, key);
      if key == Key(item.name) {
        assert Key(out'[|out|].name) == key;
      } else {
        assert Holds(out, key);
        var j :| 0 <= j < |out| && Key(out[j].name) == key;
        assert out'[j] == out[j];
      }
    }
  }

  /** Entries of a described list have different names. */
  lemma NamesDiffer(out: seq<Header>, items: seq<Header>, agent: string, i: nat, j: nat)
    requires Describes(out, items, agent) && i < |out| && j < |out| && i != j
    ensures Key(out[i].name) != Key(out[j].name)
  {
    var first, second := if i < j then i else j, if i < j then j else i;
    assert Since(items, agent, Key(out[first].name)) < Since(items, agent, Key(out[second].name));
  }

  /** One item, removing, replacing or adding, keeps the list described. */
  lemma AppliedDescribes(out: seq<Header>, items: seq<Header>, agent: string, item: Header)
    requires Describes(out, items, agent)
    ensures Describes(Applied(out, item), items + [item], agent)
  {
    hide Describes, Last, Since, Key;
    var i := Position(out, item.name);
    if i < |out| {
      forall j | 0 <= j < |out| && j != i
        ensures Key(out[j].name) != Key(item.name)
      {
        NamesDiffer(out, items, agent, i, j);
      }
      if item.value == "" {
        Removed(out, items, agent, item, i);
      } else {
        Replaced(out, items, agent, item, i);
      }
    } else {
      Added(out, items, agent, item);
    }
  }

  /** The in-place fold: at most one entry per name up to ASCII case, the last item of that
      name when its value is not empty and none otherwise, the default agent exactly while
      nothing names it, in the order in which each name's present run of presence began. */
  lemma {:induction false} FoldDescribesItems(items: seq<Header>, agent: string)
    requires agent != ""
    ensures Describes(Folded(items, agent), items, agent)
    ensures forall i, j :: 0 <= i < j < |Folded(items, agent)| ==>
              Key(Folded(items, agent)[i].name) != Key(Folded(items, agent)[j].name)
  {
    hide Describes, Applied, Key;
    var out := Folded(items, agent);
    if items == [] {
      DefaultOnly(agent);
    } else {
      var before, item := items[..|items| - 1], items[|items| - 1];
      FoldDescribesItems(before, agent);
      AppliedDescribes(Folded(before, agent), before, agent, item);
      assert items == before + [item];
    }
    forall i, j | 0 <= i < j < |out|
      ensures Key(out[i].name) != Key(out[j].name)
    {
      NamesDiffer(out, items, agent, i, j);
    }
  }

  lemma DefaultOnly(agent: string)
    requires agent != ""
    ensures Describes([Header(USER_AGENT, agent)], [], agent)
  {
    var out := [Header(USER_AGENT, agent)];
    forall key | Present([], agent, key)
      ensures Holds(out, key)
    {
      assert Key(out[0].name) == key;
    }
  }

  // ----- what names, presence and order are

  /** Two names are one up to the case of ASCII letters. */
  lemma KeyIff(a: string, b: string)
    ensures Key(a) == Key(b) <==>
            |a| == |b| && forall i :: 0 <= i < |a| ==>
              || a[i] == b[i]
              || ('A' <= a[i] <= 'Z' && b[i] as int == a[i] as int + 32)
              || ('A' <= b[i] <= 'Z' && a[i] as int == b[i] as int + 32)
  {
    if Key(a) == Key(b) {
      assert |a| == |Key(a)| == |Key(b)| == |b|;
      forall i | 0 <= i < |a|
        ensures LowerChar(a[i]) == LowerChar(b[i])
      {
        assert Key(a)[i] == Key(b)[i];
      }
    }
  }

  /** With no item of its name only the agent stands, under the name `user-agent`. */
  lemma {:induction false} UnnamedIsDefault(items: seq<Header>, agent: string, key: string)
    requires forall i :: 0 <= i < |items| ==> Key(items[i].name) != key
    ensures Last(items, agent, key) == if key == Key("user-agent") then Some(Header("user-agent", agent)) else None
  {
    if items != [] {
      hide Key;
      var n := |items| - 1;
      assert forall i :: 0 <= i < n ==> items[..n][i] == items[i];
      UnnamedIsDefault(items[..n], agent, key);
    }
  }

  /** The last item of a name is the one no later item shares it with. */
  lemma {:induction false} LastIs(items: seq<Header>, agent: string, i: nat)
    requires i < |items| && forall j :: i < j < |items| ==> Key(items[j].name) != Key(items[i].name)
    ensures Last(items, agent, Key(items[i].name)) == Some(items[i])
  {
    hide Key;
    var n := |items| - 1;
    if i < n {
      assert forall j :: 0 <= j < n ==> items[..n][j] == items[j];
      LastIs(items[..n], agent, i);
    }
  }

  /** A present name has been so, without a break, since the item that `Since` names, or from
      the start. */
  lemma {:induction false} SinceIs(items: seq<Header>, agent: string, key: string)
    requires Present(items, agent, key)
    ensures var n := Since(items, agent, key);
            && (n >= 0 ==> n < |items| && Key(items[n].name) == key && !Present(items[..n], agent, key))
            && forall m :: 0 <= m <= |items| && n < m ==> Present(items[..m], agent, key)
  {
    hide Key;
    assert items[..|items|] == items;
    if items != [] {
      var n := |items| - 1;
      if Key(items[n].name) != key || Present(items[..n], agent, key) {
        SinceIs(items[..n], agent, key);
        SinceBounds(items[..n], agent, key);
        assert forall m :: 0 <= m <= n ==> items[..n][..m] == items[..m];
      }
    }
  }
}
