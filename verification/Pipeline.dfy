/** Building the rule pipeline from configuration, in an order map enumeration cannot disturb. */
module Pipeline {
  import opened Commits
  import opened Policy

  datatype RuleConfig = RuleConfig(enabled: bool, agents: seq<string>, repos: seq<string>, params: map<string, seq<string>>)
  type Factory = RuleConfig -> Rule
  datatype Resolution = Resolved(engine: Engine) | Unregistered(name: string)

  // ------------------------------------------------------------- string order

  /** Go's `<=` on strings. */
  predicate Leq(a: string, b: string) {
    if a == "" then true
    else if b == "" then false
    else a[0] < b[0] || (a[0] == b[0] && Leq(a[1..], b[1..]))
  }

  lemma {:induction false} LeqTotal(a: string, b: string)
    ensures Leq(a, b) || Leq(b, a)
  {
    if a != "" && b != "" {
      LeqTotal(a[1..], b[1..]);
    }
  }

  lemma {:induction false} LeqAntisymmetric(a: string, b: string)
    requires Leq(a, b) && Leq(b, a)
    ensures a == b
  {
    if a != "" && b != "" {
      LeqAntisymmetric(a[1..], b[1..]);
      assert a == [a[0]] + a[1..] && b == [b[0]] + b[1..];
    }
  }

  lemma {:induction false} LeqTransitive(a: string, b: string, c: string)
    requires Leq(a, b) && Leq(b, c)
    ensures Leq(a, c)
  {
    if a != "" && b != "" && c != "" && a[0] == b[0] && b[0] == c[0] {
      LeqTransitive(a[1..], b[1..], c[1..]);
    }
  }

  /** One string is at most another iff it is a prefix of it or smaller where they first differ. */
  lemma {:induction false} LeqIsFirstDifference(a: string, b: string)
    ensures Leq(a, b) <==> a <= b || exists i: nat :: SmallerAt(a, b, i)
  {
    if a != "" && b != "" {
      LeqIsFirstDifference(a[1..], b[1..]);
      assert a <= b <==> a[0] == b[0] && a[1..] <= b[1..];
      if a[0] == b[0] {
        if i: nat :| SmallerAt(a[1..], b[1..], i) {
          assert a[..i + 1] == [a[0]] + a[1..][..i] && b[..i + 1] == [b[0]] + b[1..][..i];
          assert SmallerAt(a, b, i + 1);
        }
        if i: nat :| SmallerAt(a, b, i) {
          assert a[1..][..i - 1] == a[..i][1..] && b[1..][..i - 1] == b[..i][1..];
          assert SmallerAt(a[1..], b[1..], i - 1);
        }
      } else {
        assert SmallerAt(a, b, 0) <==> a[0] < b[0];
        if i: nat :| SmallerAt(a, b, i) && i > 0 {
          DifferLater(a, b, i);
        }
      }
    }
  }

  lemma DifferLater(a: string, b: string, i: nat)
    requires SmallerAt(a, b, i) && i > 0
    ensures a[0] == b[0]
  {
    assert a[0] == a[..i][0] && b[0] == b[..i][0];
  }

  predicate SmallerAt(a: string, b: string, i: nat) {
    i < |a| && i < |b| && a[..i] == b[..i] && a[i] < b[i]
  }

  // ----------------------------------------------------------- insertion sort

  ghost predicate Sorted(s: seq<string>) {
    forall i, j :: 0 <= i < j < |s| ==> Leq(s[i], s[j])
  }

  /** Sorted apart from the element at `j`, which is in place against everything after it. */
  ghost predicate SortedAround(s: seq<string>, j: nat) {
    && (forall a, b :: 0 <= a < b < |s| && a != j && b != j ==> Leq(s[a], s[b]))
    && (forall b :: j < b < |s| && j < |s| ==> Leq(s[j], s[b]))
  }

  ghost predicate SameElements(s: seq<string>, t: seq<string>) {
    multiset(s) == multiset(t)
  }

  lemma SwapElements(s: seq<string>, j: nat)
    requires 0 < j < |s|
    ensures SameElements(s, s[j - 1 := s[j]][j := s[j - 1]])
  {
    var t := s[j - 1 := s[j]][j := s[j - 1]];
    assert s == s[..j - 1] + [s[j - 1], s[j]] + s[j + 1..];
    assert t == s[..j - 1] + [s[j], s[j - 1]] + s[j + 1..];
    assert multiset([s[j], s[j - 1]]) == multiset([s[j - 1], s[j]]);
  }

  lemma SinkStep(s: seq<string>, j: nat)
    requires 0 < j < |s| && SortedAround(s, j) && !Leq(s[j - 1], s[j])
    ensures SortedAround(s[j - 1 := s[j]][j := s[j - 1]], j - 1)
  {
    LeqTotal(s[j - 1], s[j]);
  }

  lemma SinkDone(s: seq<string>, j: nat)
    requires j < |s| && SortedAround(s, j) && (j > 0 ==> Leq(s[j - 1], s[j]))
    ensures Sorted(s)
  {
    forall a, b | 0 <= a < b < |s| ensures Leq(s[a], s[b]) {
      if b == j && a < j - 1 {
        LeqTransitive(s[a], s[j - 1], s[j]);
      }
    }
  }

  /** One outer iteration: sink the element at `i` into the sorted prefix. */
  method Sink(names: array<string>, i: nat)
    requires i < names.Length && Sorted(names[..i])
    modifies names
    ensures Sorted(names[..i + 1]) && names[i + 1..] == old(names[i + 1..])
    ensures SameElements(names[..], old(names[..]))
  {
    var j: nat := i;
    assert names[..i + 1][..i] == names[..i];
    assert forall a :: 0 <= a < i ==> names[..i + 1][a] == names[..i][a];
    while j > 0 && !Leq(names[j - 1], names[j])
      invariant j <= i && SortedAround(names[..i + 1], j)
      invariant names[i + 1..] == old(names[i + 1..])
      invariant SameElements(names[..], old(names[..]))
    {
      ghost var was := names[..];
      SinkStep(was[..i + 1], j);
      SwapElements(was, j);
      names[j - 1], names[j] := names[j], names[j - 1];
      assert names[..] == was[j - 1 := was[j]][j := was[j - 1]];
      assert names[..i + 1] == was[..i + 1][j - 1 := was[j]][j := was[j - 1]];
      j := j - 1;
    }
    SinkDone(names[..i + 1], j);
  }

  method InsertionSort(names: array<string>)
    modifies names
    ensures Sorted(names[..]) && SameElements(names[..], old(names[..]))
  {
    if names.Length == 0 {
      return;
    }
    for i := 1 to names.Length
      invariant Sorted(names[..i]) && SameElements(names[..], old(names[..]))
    {
      Sink(names, i);
    }
    assert names[..names.Length] == names[..];
  }

  // ---------------------------------------------------------------- resolution

  ghost predicate Enumerates(names: seq<string>, s: set<string>) {
    Distinct(names) && forall n :: n in names <==> n in s
  }

  /** A set of names has only one sorted enumeration. */
  lemma {:induction false} SortedEnumerationUnique(a: seq<string>, b: seq<string>, s: set<string>)
    requires Enumerates(a, s) && Enumerates(b, s) && Sorted(a) && Sorted(b)
    ensures a == b
    decreases |a|
  {
    if a == [] {
      assert forall i :: 0 <= i < |b| ==> b[i] in b;
    } else {
      assert a[0] in a && a[0] in b;
      assert b[0] in b && b[0] in a;
      var k :| 0 <= k < |b| && b[k] == a[0];
      var l :| 0 <= l < |a| && a[l] == b[0];
      if k > 0 {
        LeqAntisymmetric(a[0], b[0]);
      }
      TailEnumerates(a, s);
      TailEnumerates(b, s);
      SortedEnumerationUnique(a[1..], b[1..], s - {a[0]});
      assert a == [a[0]] + a[1..] && b == [b[0]] + b[1..];
    }
  }

  lemma TailEnumerates(a: seq<string>, s: set<string>)
    requires a != [] && Enumerates(a, s)
    ensures Enumerates(a[1..], s - {a[0]})
  {
    forall n ensures n in a[1..] <==> n in s - {a[0]} {
      if n in s - {a[0]} {
        var i :| 0 <= i < |a| && a[i] == n;
        assert a[1..][i - 1] == n;
      }
    }
  }

  ghost function EnabledNames(rules: map<string, RuleConfig>): set<string> {
    set n | n in rules && rules[n].enabled
  }

  function ToEntry(f: Factory, rc: RuleConfig): Entry {
    Entry(f(rc), set a | a in rc.agents, set r | r in rc.repos)
  }

  /** A built entry runs the configured rule for the configured agents and repositories; none configured means all. */
  lemma BuiltEntryApplies(f: Factory, rc: RuleConfig, req: PushRequest)
    ensures ToEntry(f, rc).rule == f(rc)
    ensures ToEntry(f, rc).Applies(req) <==>
      (|rc.agents| == 0 || req.agent in rc.agents) && (|rc.repos| == 0 || req.repo in rc.repos)
  {
    if rc.agents != [] {
      assert rc.agents[0] in ToEntry(f, rc).agents;
    }
    if rc.repos != [] {
      assert rc.repos[0] in ToEntry(f, rc).repos;
    }
  }

  /** The pipeline for the given names, or the first of them nobody registered. */
  function Build(mode: Mode, rules: map<string, RuleConfig>, reg: map<string, Factory>, names: seq<string>): Resolution
    requires forall n :: n in names ==> n in rules
  {
    if names == [] then Resolved(Engine(mode, []))
    else
      var n := |names| - 1;
      match Build(mode, rules, reg, names[..n])
      case Unregistered(x) => Unregistered(x)
      case Resolved(e) =>
        if names[n] !in reg then Unregistered(names[n])
        else Resolved(Engine(mode, e.entries + [ToEntry(reg[names[n]], rules[names[n]])]))
  }

  /** The result every enumeration order must give. */
  ghost predicate IsResolution(mode: Mode, rules: map<string, RuleConfig>, reg: map<string, Factory>, r: Resolution) {
    exists names: seq<string> :: Sorted(names) && Enumerates(names, EnabledNames(rules)) && r == Build(mode, rules, reg, names)
  }

  /** Collect the enabled names in whatever order the rule map is enumerated. */
  method Collect(rules: map<string, RuleConfig>, order: seq<string>) returns (names: seq<string>)
    requires Enumerates(order, rules.Keys)
    ensures Enumerates(names, EnabledNames(rules))
  {
    names := [];
    for i := 0 to |order|
      invariant Distinct(names)
      invariant forall n :: n in names <==> n in order[..i] && rules[n].enabled
    {
      if rules[order[i]].enabled {
        names := names + [order[i]];
      }
    }
    assert order[..|order|] == order;
  }

  lemma {:induction false} DistinctCounts<T>(s: seq<T>)
    requires Distinct(s)
    ensures forall x :: multiset(s)[x] <= 1
  {
    if s != [] {
      var n := |s| - 1;
      assert s == s[..n] + [s[n]];
      DistinctCounts(s[..n]);
      assert s[n] !in s[..n];
      assert s[n] !in multiset(s[..n]);
    }
  }

  lemma {:induction false} CountsDistinct<T>(s: seq<T>)
    requires forall x :: multiset(s)[x] <= 1
    ensures Distinct(s)
  {
    if s != [] {
      var n := |s| - 1;
      assert s == s[..n] + [s[n]];
      forall x ensures multiset(s[..n])[x] <= 1 && (x == s[n] ==> multiset(s[..n])[x] == 0) {
        assert multiset(s)[x] == multiset(s[..n])[x] + multiset([s[n]])[x];
      }
      CountsDistinct(s[..n]);
      assert s[n] !in multiset(s[..n]);
      assert s[n] !in s[..n];
      assert forall i :: 0 <= i < n ==> s[..n][i] == s[i] && s[i] in s[..n];
    }
  }

  lemma SameElementsEnumerate(a: seq<string>, b: seq<string>, s: set<string>)
    requires SameElements(a, b) && Enumerates(a, s)
    ensures Enumerates(b, s)
  {
    DistinctCounts(a);
    CountsDistinct(b);
    assert forall n :: n in b <==> n in multiset(b);
    assert forall n :: n in a <==> n in multiset(a);
  }

  method Resolve(mode: Mode, rules: map<string, RuleConfig>, reg: map<string, Factory>, order: seq<string>)
    returns (r: Resolution)
    requires Enumerates(order, rules.Keys)
    ensures IsResolution(mode, rules, reg, r)
  {
    hide ToEntry, Build, Sorted;
    BuildNothing(mode, rules, reg);
    var collected := Collect(rules, order);
    var names := new string[|collected|](i requires 0 <= i < |collected| => collected[i]);
    assert names[..] == collected;
    InsertionSort(names);
    SameElementsEnumerate(collected, names[..], EnabledNames(rules));
    ghost var sorted := names[..];
    var entries: seq<Entry> := [];
    for i := 0 to names.Length
      invariant names[..] == sorted
      invariant forall n :: n in sorted[..i] ==> n in rules
      invariant Build(mode, rules, reg, sorted[..i]) == Resolved(Engine(mode, entries))
    {
      var name := names[i];
      assert name == sorted[i] && name in sorted;
      assert sorted[..i + 1] == sorted[..i] + [name];
      BuildNext(mode, rules, reg, sorted[..i], name);
      if name !in reg {
        UnregisteredStays(mode, rules, reg, sorted, i + 1);
        return Unregistered(name);
      }
      entries := entries + [ToEntry(reg[name], rules[name])];
    }
    assert sorted[..names.Length] == sorted;
    r := Resolved(Engine(mode, entries));
  }

  lemma {:induction false} UnregisteredStays(mode: Mode, rules: map<string, RuleConfig>, reg: map<string, Factory>, names: seq<string>, i: nat)
    requires i <= |names| && forall n :: n in names ==> n in rules
    requires Build(mode, rules, reg, names[..i]).Unregistered?
    ensures Build(mode, rules, reg, names) == Build(mode, rules, reg, names[..i])
    decreases |names|
  {
    if i < |names| {
      var n := |names| - 1;
      assert names[..n][..i] == names[..i];
      UnregisteredStays(mode, rules, reg, names[..n], i);
    } else {
      assert names[..i] == names;
    }
  }

  /** Whatever order the rule map is enumerated in, the same pipeline comes out. */
  lemma ResolveIsDeterministic(mode: Mode, rules: map<string, RuleConfig>, reg: map<string, Factory>, r: Resolution, r': Resolution)
    requires IsResolution(mode, rules, reg, r) && IsResolution(mode, rules, reg, r')
    ensures r == r'
  {
    var a: seq<string> :| Sorted(a) && Enumerates(a, EnabledNames(rules)) && r == Build(mode, rules, reg, a);
    var b: seq<string> :| Sorted(b) && Enumerates(b, EnabledNames(rules)) && r' == Build(mode, rules, reg, b);
    SortedEnumerationUnique(a, b, EnabledNames(rules));
  }

  /** The entry of an enabled rule that is registered. */
  ghost predicate IsEntryOf(rules: map<string, RuleConfig>, reg: map<string, Factory>, name: string, entry: Entry) {
    name in rules && name in reg && entry == ToEntry(reg[name], rules[name])
  }

  /** Fail-closed: a resolved pipeline has an entry for every enabled rule, and all were registered. */
  lemma {:induction false} BuildIsComplete(mode: Mode, rules: map<string, RuleConfig>, reg: map<string, Factory>, names: seq<string>)
    requires forall n :: n in names ==> n in rules
    ensures var r := Build(mode, rules, reg, names);
      && (r.Resolved? <==> forall i :: 0 <= i < |names| ==> names[i] in reg)
      && (r.Resolved? ==> r.engine.mode == mode && |r.engine.entries| == |names|)
      && (r.Resolved? ==> forall i :: 0 <= i < |names| ==> IsEntryOf(rules, reg, names[i], r.engine.entries[i]))
  {
    hide ToEntry, Build, IsEntryOf;
    if names == [] {
      BuildNothing(mode, rules, reg);
    } else {
      var n := |names| - 1;
      var before := names[..n];
      assert forall i :: 0 <= i < n ==> before[i] == names[i];
      BuildIsComplete(mode, rules, reg, before);
      BuildNext(mode, rules, reg, before, names[n]);
      assert names == before + [names[n]];
    }
  }

  lemma BuildNothing(mode: Mode, rules: map<string, RuleConfig>, reg: map<string, Factory>)
    ensures Build(mode, rules, reg, []) == Resolved(Engine(mode, []))
  {
  }

  lemma BuildNext(mode: Mode, rules: map<string, RuleConfig>, reg: map<string, Factory>, names: seq<string>, name: string)
    requires (forall n :: n in names ==> n in rules) && name in rules
    ensures forall n :: n in names + [name] ==> n in rules
    ensures var r, next := Build(mode, rules, reg, names), Build(mode, rules, reg, names + [name]);
      && (r.Unregistered? ==> next == r)
      && (r.Resolved? && name !in reg ==> next == Unregistered(name))
      && (r.Resolved? && name in reg ==>
            && next == Resolved(Engine(mode, r.engine.entries + [ToEntry(reg[name], rules[name])]))
            && IsEntryOf(rules, reg, name, ToEntry(reg[name], rules[name])))
  {
    hide ToEntry;
    assert (names + [name])[..|names|] == names;
  }
}
