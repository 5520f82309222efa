/** The composite states as the minimization means them: one composite per
    class of equivalent states.  Two things in main.py:379-384 stand in the
    way.  The states in no unmarked pair are appended as a single list, so
    states that are not equivalent (a final one and a non-final one, say)
    share a composite, and when there are no such states the list is empty
    and naming its transitions raises `StopIteration`.  The corrected stage
    appends each of those states as a composite of its own; together with
    the table of `Fixpoint`, every composite is then a class of equivalent
    states and the composite automaton accepts the original language. */
module Corrected {
  import opened Basics
  import opened Dfa
  import opened Table
  import opened Fixpoint
  import opened Partition
  import opened Naming
  import opened Validation
  import opened Minimized

  // ---------------------------------------------------------------------
  // The isolated states as written.

  /** States P (initial, not final) and F (final), one symbol, both moving to F. */
  function MixedExample(): Machine {
    Machine("PF", ["a"], 0, {1}, [[1], [1]])
  }

  /** States A (initial) and B, neither final, one symbol, both moving to A. */
  function TwinExample(): Machine {
    Machine("AB", ["a"], 0, {}, [[0], [0]])
  }

  lemma ExamplesValid()
    ensures Valid(MixedExample()) && Valid(TwinExample())
  {
    assert MixedExample().labels[0] == 'P' && MixedExample().labels[1] == 'F';
    assert TwinExample().labels[0] == 'A' && TwinExample().labels[1] == 'B';
  }

  /** On `MixedExample` the only pair is marked, so both states go into the
      last composite: the composite holding the initial state P is final,
      and the empty word is accepted from it although P rejects it. */
  lemma IsolatedGroupMixesFinality(comps: seq<seq<nat>>)
    requires |comps| > 0
    requires Valid(MixedExample())
    requires Elements(comps[|comps| - 1]) == AllStates(2) - Members(ZeroPairs(DerivedTable(MixedExample()), 2))
    ensures var d, last := MixedExample(), comps[|comps| - 1];
      && d.start in last && 1 in last
      && last in Accepting(comps, d.final)
      && !Accepts(d, d.start, [])
      && !Equivalent(d, d.start, 1)
  {
    var d := MixedExample();
    var B := BaseTable(d);
    assert B[1][0] == Marked;
    assert Pass(d, B, 1) == RowPass(d, B, 0, 0) == B;
    assert DerivedTable(d) == RowPass(d, B, 1, 1) == Step(d, B, 1, 0) == B;
    assert RowZeros(B, 0, 0) == [] && RowZeros(B, 1, 1) == [];
    assert ZeroPairs(B, 2) == [];
    assert comps[|comps| - 1] in comps;
    var e: seq<nat> := [];
    assert IsWord(d, e) && Run(d, 0, e) == 0 && Run(d, 1, e) == 1;
  }

  /** On `TwinExample` both states lie in the unmarked pair, so the last
      composite is empty; the alphabet is not, so the pass ends in
      `StopIteration` (see `Minimized.Minimize`). */
  lemma NoIsolatedStateLeavesEmptyGroup(comps: seq<seq<nat>>)
    requires |comps| > 0
    requires Valid(TwinExample())
    requires Elements(comps[|comps| - 1]) == AllStates(2) - Members(ZeroPairs(DerivedTable(TwinExample()), 2))
    ensures comps[|comps| - 1] == [] && TwinExample().Width() > 0
  {
    var d := TwinExample();
    var B := BaseTable(d);
    assert B[1][0] == Unmarked;
    assert Pass(d, B, 1) == RowPass(d, B, 0, 0) == B;
    assert !Witness(d, B, 1, 0, 0);
    assert DerivedTable(d) == RowPass(d, B, 1, 1) == Step(d, B, 1, 0) == B;
    assert RowZeros(B, 0, 0) == [] && RowZeros(B, 1, 1) == [[1, 0]];
    assert ZeroPairs(B, 2) == [[1, 0]];
    MembersAppend([], [1, 0]);
    assert Members([[1, 0]]) == {0, 1};
  }

  // ---------------------------------------------------------------------
  // The corrected composites.

  /** Equivalence of states of d, as a relation on state positions. */
  ghost function Equiv(d: Machine): (nat, nat) -> bool
    requires Valid(d)
  {
    (p: nat, q: nat) => p < d.Size() && q < d.Size() && Equivalent(d, p, q)
  }

  lemma EquivIsEquivalence(d: Machine)
    requires Valid(d)
    ensures IsEquivalence(Equiv(d))
  {
    forall x: nat, y: nat, z: nat | Equiv(d)(x, y) && Equiv(d)(y, z) ensures Equiv(d)(x, z) {
      EquivalentTransitive(d, x, y, z);
    }
  }

  /** The least state, from y on, equivalent to x. */
  ghost function LeastFrom(d: Machine, x: nat, y: nat): (r: nat)
    requires Valid(d) && y <= x < d.Size()
    ensures y <= r <= x && Equivalent(d, r, x)
    ensures forall z: nat :: y <= z < r ==> !Equivalent(d, z, x)
    decreases x - y
  {
    if Equivalent(d, y, x) then y else LeastFrom(d, x, y + 1)
  }

  /** A key for each class: the least state of the class.  Positions that
      are not states get keys of their own. */
  ghost function ClassKey(d: Machine): nat -> nat
    requires Valid(d)
  {
    (x: nat) => if x < d.Size() then LeastFrom(d, x, 0) else d.Size() + x
  }

  /** Two positions have the same key exactly when they are the same
      position or equivalent states. */
  lemma SameKey(d: Machine, p: nat, q: nat)
    requires Valid(d)
    ensures ClassKey(d)(p) == ClassKey(d)(q) <==> p == q || Equiv(d)(p, q)
  {
    var n := d.Size();
    if p < n && q < n {
      var a, b := LeastFrom(d, p, 0), LeastFrom(d, q, 0);
      if Equivalent(d, p, q) {
        EquivalentTransitive(d, a, p, q);
        EquivalentTransitive(d, b, q, p);
      }
      if a == b {
        EquivalentTransitive(d, p, a, q);
      }
    }
  }

  /** With a table that decides equivalence, the collected pairs are exactly
      the pairs of equivalent states, in scan order. */
  lemma PairsOfClasses(d: Machine, M: seq<seq<int>>)
    requires Valid(d) && Inv(d, M) && Closed(d, M)
    ensures PairsOf(ZeroPairs(M, |M|), ClassKey(d))
  {
    var pairs, K := ZeroPairs(M, |M|), ClassKey(d);
    ZeroPairsSpec(M, |M|);
    ZeroPairsSorted(M, |M|);
    ClosedDecidesEquivalence(d, M);
    forall a | 0 <= a < |pairs|
      ensures |pairs[a]| == 2 && pairs[a][1] < pairs[a][0] && K(pairs[a][0]) == K(pairs[a][1])
    {
      SameKey(d, pairs[a][0], pairs[a][1]);
    }
    forall p: nat, q: nat | q < p && Alike(K, p, q) ensures [p, q] in pairs {
      SameKey(d, p, q);
    }
  }

  /** One single-state composite per element of xs, in order. */
  function Singletons(xs: seq<nat>): (r: seq<seq<nat>>)
    ensures |r| == |xs|
  {
    if xs == [] then [] else Singletons(xs[..|xs| - 1]) + [[xs[|xs| - 1]]]
  }

  lemma {:induction false} SingletonsSpec(xs: seq<nat>)
    ensures forall t :: 0 <= t < |xs| ==> Singletons(xs)[t] == [xs[t]]
    ensures Members(Singletons(xs)) == Elements(xs)
  {
    if xs != [] {
      var init, last := xs[..|xs| - 1], xs[|xs| - 1];
      SingletonsSpec(init);
      var S := Singletons(init);
      assert Singletons(xs) == S + [[last]];
      forall t | 0 <= t < |xs| ensures Singletons(xs)[t] == [xs[t]] {
        if t < |init| {
          assert Singletons(xs)[t] == S[t] == [init[t]];
        }
      }
      MembersAppend(S, [last]);
      assert Elements([last]) == {last};
      assert xs == init + [last];
      assert Elements(xs) == Elements(init) + {last};
    }
  }

  /** Every state not in `used` appended as a composite of its own. */
  method AppendSingletons(n: nat, used: set<nat>, lists: seq<seq<nat>>) returns (comps: seq<seq<nat>>)
    ensures |comps| >= |lists| && comps[..|lists|] == lists
    ensures forall t :: |lists| <= t < |comps| ==> |comps[t]| == 1 && comps[t][0] !in used
    ensures forall t, v :: |lists| <= t < v < |comps| ==> comps[t][0] != comps[v][0]
    ensures Members(comps) == Members(lists) + (AllStates(n) - used)
  {
    var isolated := ListOf(AllStates(n) - used);
    comps := lists;
    for k := 0 to |isolated|
      invariant comps == lists + Singletons(isolated[..k])
    {
      assert isolated[..k + 1][..k] == isolated[..k];
      comps := comps + [[isolated[k]]];
    }
    assert isolated[..|isolated|] == isolated;
    SingletonsAppended(lists, isolated);
  }

  /** lists followed by one singleton per element of a duplicate-free xs. */
  lemma SingletonsAppended(lists: seq<seq<nat>>, xs: seq<nat>)
    requires Distinct(xs)
    ensures var comps := lists + Singletons(xs);
      && comps[..|lists|] == lists
      && (forall t :: |lists| <= t < |comps| ==> comps[t] == [xs[t - |lists|]])
      && (forall t, v :: |lists| <= t < v < |comps| ==> comps[t][0] != comps[v][0])
      && Members(comps) == Members(lists) + Elements(xs)
  {
    SingletonsSpec(xs);
    var S := Singletons(xs);
    var comps := lists + S;
    MembersConcat(lists, S);
    assert comps[..|lists|] == lists;
    forall t | |lists| <= t < |comps| ensures comps[t] == [xs[t - |lists|]] {
      assert comps[t] == S[t - |lists|];
    }
  }

  lemma {:induction false} MembersConcat(A: seq<seq<nat>>, B: seq<seq<nat>>)
    ensures Members(A + B) == Members(A) + Members(B)
  {
    MembersSpec(A);
    MembersSpec(B);
    MembersSpec(A + B);
    forall x ensures x in Members(A + B) <==> x in Members(A) + Members(B) {
      if x in Members(A + B) {
        var t :| 0 <= t < |A + B| && x in (A + B)[t];
        if t >= |A| {
          assert (A + B)[t] == B[t - |A|];
        }
      }
      if x in Members(A) {
        var t :| 0 <= t < |A| && x in A[t];
        assert (A + B)[t] == A[t];
      }
      if x in Members(B) {
        var t :| 0 <= t < |B| && x in B[t];
        assert (A + B)[|A| + t] == B[t];
      }
    }
  }

  /** The collected pairs merged, then the isolated states as singletons:
      with a table that decides equivalence, the composites cover the
      states, none is empty, no two share a state, each lies within one
      equivalence class and equivalent states share a composite: the
      composites are the equivalence classes. */
  method CorrectedComposites(d: Machine, m: array2<int>, ghost M: seq<seq<int>>) returns (comps: seq<seq<nat>>)
    requires Valid(d) && Represents(m, M) && Inv(d, M) && Closed(d, M)
    ensures Members(comps) == AllStates(d.Size())
    ensures NoneEmpty(comps)
    ensures Cliques(comps, Equiv(d))
    ensures Disjoint(comps) && Separated(d, comps)
  {
    var pairs, used := CollectPairs(m, M);
    ghost var merges;
    var merged;
    PairsOfClasses(d, M);
    merged, merges := MergeIntersecting(pairs, Equiv(d), ClassKey(d));
    comps := AppendSingletons(m.Length0, used, merged);
    PairsInRange(M);
    PairsNonEmpty(M);
    EquivIsEquivalence(d);
    ClosedDecidesEquivalence(d, M);
    PairsCliques(M, Equiv(d));
    SingletonsAreCliques(d, comps, merged);
    ComposedDisjoint(comps, merged);
    ComposedSeparated(d, comps, merged, pairs);
  }

  /** Equivalent states never sit in different composites. */
  ghost predicate Separated(d: Machine, comps: seq<seq<nat>>)
    requires Valid(d)
  {
    forall t, v, x, y :: 0 <= t < |comps| && 0 <= v < |comps| && x in comps[t] && y in comps[v] && Equiv(d)(x, y) ==> t == v
  }

  /** A state shared by two composites of disjoint ones names one composite. */
  lemma OneHolder(comps: seq<seq<nat>>, x: nat, t: nat, v: nat)
    requires Disjoint(comps) && t < |comps| && v < |comps| && x in comps[t] && x in comps[v]
    ensures t == v
  {
  }

  /** Merged lists that share no state, followed by distinct singletons of
      states in none of them: no two composites share a state. */
  lemma ComposedDisjoint(comps: seq<seq<nat>>, merged: seq<seq<nat>>)
    requires |comps| >= |merged| && comps[..|merged|] == merged && Disjoint(merged)
    requires forall t :: |merged| <= t < |comps| ==> |comps[t]| == 1 && comps[t][0] !in Members(merged)
    requires forall t, v :: |merged| <= t < v < |comps| ==> comps[t][0] != comps[v][0]
    ensures Disjoint(comps)
  {
    MembersSpec(merged);
    forall k, v | 0 <= k < v < |comps| ensures Elements(comps[k]) !! Elements(comps[v]) {
      if v < |merged| {
        assert comps[k] == merged[k] && comps[v] == merged[v];
      } else if k < |merged| {
        assert comps[k] == merged[k] && comps[v] == [comps[v][0]];
      } else {
        assert comps[k] == [comps[k][0]] && comps[v] == [comps[v][0]];
      }
    }
  }

  /** When the composites share no state and every collected pair of
      equivalent states lies inside one of them, equivalent states share a
      composite. */
  lemma ComposedSeparated(d: Machine, comps: seq<seq<nat>>, merged: seq<seq<nat>>, pairs: seq<seq<nat>>)
    requires Valid(d) && |comps| >= |merged| && comps[..|merged|] == merged
    requires Disjoint(comps) && Covers(pairs, merged)
    requires PairsOf(pairs, ClassKey(d))
    ensures Separated(d, comps)
  {
    forall t, v, x, y | 0 <= t < |comps| && 0 <= v < |comps| && x in comps[t] && y in comps[v] && Equiv(d)(x, y)
      ensures t == v
    {
      if x == y {
        OneHolder(comps, x, t, v);
      } else {
        var p, q := if x < y then y else x, if x < y then x else y;
        SameKey(d, p, q);
        assert Alike(ClassKey(d), p, q);
        assert [p, q] in pairs;
        var a: nat :| a < |pairs| && pairs[a] == [p, q];
        assert Covered(pairs[a], merged);
        var w: nat :| w < |merged| && Elements(pairs[a]) <= Elements(merged[w]);
        assert comps[w] == merged[w];
        assert p in Elements(pairs[a]) && q in Elements(pairs[a]);
        OneHolder(comps, x, t, w);
        OneHolder(comps, y, v, w);
      }
    }
  }

  lemma SingletonsAreCliques(d: Machine, comps: seq<seq<nat>>, merged: seq<seq<nat>>)
    requires Valid(d) && |comps| >= |merged| && comps[..|merged|] == merged
    requires Members(comps) == AllStates(d.Size())
    requires NoneEmpty(merged) && Cliques(merged, Equiv(d))
    requires forall t :: |merged| <= t < |comps| ==> |comps[t]| == 1
    ensures NoneEmpty(comps) && Cliques(comps, Equiv(d))
  {
    MembersSpec(comps);
    forall t | 0 <= t < |comps| ensures comps[t] != [] {
      if t < |merged| {
        assert comps[t] == merged[t];
      }
    }
    forall t, x, y | 0 <= t < |comps| && x in comps[t] && y in comps[t] ensures Equiv(d)(x, y) {
      if t < |merged| {
        assert comps[t] == merged[t];
      } else {
        assert x == comps[t][0] == y;
        assert x in Members(comps);
      }
    }
  }

  // ---------------------------------------------------------------------
  // The composite automaton and its language.

  /** Composites covering the states, none empty, each within one class. */
  ghost predicate Classes(d: Machine, comps: seq<seq<nat>>)
    requires Valid(d)
  {
    Members(comps) == AllStates(d.Size()) && NoneEmpty(comps) && Cliques(comps, Equiv(d))
  }

  /** The composite reached from composite t on symbol s, as the table of
      main.py:446-469 computes it: the first composite holding the successor
      of t's first state. */
  function Successor(d: Machine, comps: seq<seq<nat>>, t: nat, s: nat): (u: nat)
    requires Valid(d) && Classes(d, comps) && t < |comps| && s < d.Width()
    ensures u < |comps| && comps[t][0] < d.Size() && d.delta[comps[t][0]][s] in comps[u]
  {
    MembersSpec(comps);
    assert comps[t][0] in Members(comps);
    var q := d.delta[comps[t][0]][s];
    assert q in Members(comps);
    FirstWith(comps, q).value
  }

  /** The composite reached from composite t by reading w. */
  function CompositeRun(d: Machine, comps: seq<seq<nat>>, t: nat, w: seq<nat>): (u: nat)
    requires Valid(d) && Classes(d, comps) && t < |comps| && IsWord(d, w)
    ensures u < |comps|
    decreases |w|
  {
    if w == [] then t else CompositeRun(d, comps, Successor(d, comps, t, w[0]), w[1..])
  }

  /** A composite is final when it meets the final states (main.py:394-401). */
  predicate CompositeAccepts(d: Machine, comps: seq<seq<nat>>, t: nat, w: seq<nat>)
    requires Valid(d) && Classes(d, comps) && t < |comps| && IsWord(d, w)
  {
    comps[CompositeRun(d, comps, t, w)] in Accepting(comps, d.final)
  }

  /** The composite automaton accepts from composite t exactly the words
      every state of t accepts: each step leads to the composite of a state
      equivalent to the original run's state, and equivalent states agree on
      finality. */
  lemma {:induction false} CompositeLanguage(d: Machine, comps: seq<seq<nat>>, t: nat, q: nat, w: seq<nat>)
    requires Valid(d) && Classes(d, comps) && t < |comps| && q in comps[t] && IsWord(d, w)
    ensures q < d.Size()
    ensures CompositeAccepts(d, comps, t, w) == Accepts(d, q, w)
    decreases |w|
  {
    MembersSpec(comps);
    assert q in Members(comps);
    var x := comps[t][0];
    assert Equiv(d)(x, q);
    if w == [] {
      var e: seq<nat> := [];
      assert Accepts(d, x, e) == Accepts(d, q, e);
      forall y | y in comps[t] ensures (y in d.final <==> q in d.final) {
        assert Equiv(d)(y, q);
        assert Accepts(d, y, e) == Accepts(d, q, e);
      }
      assert comps[t] in comps;
      if q in d.final {
        assert q in Elements(comps[t]) * d.final;
      }
    } else {
      var s := w[0];
      var u := Successor(d, comps, t, s);
      EquivalentForward(d, x, q, s);
      CompositeLanguage(d, comps, u, d.delta[x][s], w[1..]);
      assert Accepts(d, d.delta[x][s], w[1..]) == Accepts(d, d.delta[q][s], w[1..]);
    }
  }

  /** Reading w in the minimized record from the name of composite t ends
      at the name of the composite the composite automaton reaches. */
  lemma {:induction false} RecordFollowsComposites(d: Machine, comps: seq<seq<nat>>, names: seq<string>,
                                                   startName: string, finalNames: seq<string>, t: nat, w: seq<nat>)
    requires Valid(d) && Classes(d, comps) && Named(d, comps, names) && t < |comps| && IsWord(d, w)
    ensures AllFound(d, names)
    ensures RecordRun(MinimizedAutomaton(d, names, startName, finalNames), names[t], w)
            == Some(names[CompositeRun(d, comps, t, w)])
    decreases |w|
  {
    TableExists(d, comps, names);
    if w != [] {
      RecordStep(d, comps, names, startName, finalNames, t, w);
      RecordFollowsComposites(d, comps, names, startName, finalNames, Successor(d, comps, t, w[0]), w[1..]);
    }
  }

  /** The first symbol of w takes the record from the name of composite t
      to the name of its successor composite. */
  lemma RecordStep(d: Machine, comps: seq<seq<nat>>, names: seq<string>,
                   startName: string, finalNames: seq<string>, t: nat, w: seq<nat>)
    requires Valid(d) && Classes(d, comps) && Named(d, comps, names) && t < |comps| && IsWord(d, w) && w != []
    ensures AllFound(d, names)
    ensures var a := MinimizedAutomaton(d, names, startName, finalNames);
      RecordRun(a, names[t], w) == RecordRun(a, names[Successor(d, comps, t, w[0])], w[1..])
  {
    MinimizedTransition(d, comps, names, startName, finalNames, t, w[0]);
  }

  /** A composite's name is among the final names exactly when the composite
      shares a state with the final states (main.py:394-401, 418-421). */
  lemma FinalName(d: Machine, comps: seq<seq<nat>>, names: seq<string>, finalNames: seq<string>, u: nat)
    requires Valid(d) && Named(d, comps, names) && u < |comps|
    requires |finalNames| == |Accepting(comps, d.final)|
    requires forall k :: 0 <= k < |finalNames| ==>
      InRange(Accepting(comps, d.final)[k], d.Size()) && finalNames[k] == Joined(d.labels, Accepting(comps, d.final)[k])
    ensures names[u] in finalNames <==> comps[u] in Accepting(comps, d.final)
  {
    var A := Accepting(comps, d.final);
    if comps[u] in A {
      var k :| 0 <= k < |A| && A[k] == comps[u];
      assert finalNames[k] == names[u];
    }
    if names[u] in finalNames {
      var k :| 0 <= k < |finalNames| && finalNames[k] == names[u];
      assert A[k] in A;
      var v :| 0 <= v < |comps| && comps[v] == A[k];
      var f :| f in Elements(A[k]) * d.final;
      NameMembers(d, comps[v], f);
      NameMembers(d, comps[u], f);
      assert f in Elements(comps[u]) * d.final;
    }
  }

  /** The minimized record accepts from the name of composite t exactly the
      words every state of t accepts. */
  lemma RecordLanguage(d: Machine, comps: seq<seq<nat>>, names: seq<string>, startName: string,
                       finalNames: seq<string>, t: nat, q: nat, w: seq<nat>)
    requires Valid(d) && Classes(d, comps) && Named(d, comps, names) && t < |comps| && q in comps[t] && IsWord(d, w)
    requires |finalNames| == |Accepting(comps, d.final)|
    requires forall k :: 0 <= k < |finalNames| ==>
      InRange(Accepting(comps, d.final)[k], d.Size()) && finalNames[k] == Joined(d.labels, Accepting(comps, d.final)[k])
    ensures q < d.Size() && AllFound(d, names)
    ensures RecordAccepts(MinimizedAutomaton(d, names, startName, finalNames), names[t], w) == Accepts(d, q, w)
  {
    RecordFollowsComposites(d, comps, names, startName, finalNames, t, w);
    FinalName(d, comps, names, finalNames, CompositeRun(d, comps, t, w));
    CompositeLanguage(d, comps, t, q, w);
  }

  /** The corrected minimization: the fixed-point table, the merged pairs and
      singleton composites, then the same naming, table and record as
      main.py:386-478.  It always produces a record that passes validation;
      the composites are exactly the equivalence classes (each within one
      class, no two sharing a state, equivalent states together), and the
      record's transitions are those of the composite automaton
      (`Minimized.MinimizedTransition`). */
  method Minimize(a: Automaton) returns (comps: seq<seq<nat>>, out: Outcome)
    requires Loadable(a)
    ensures var d := ToMachine(a);
      && Classes(d, comps)
      && out.Minimized?
      && |out.afd.states| == |comps|
      && (forall t :: 0 <= t < |comps| ==> InRange(comps[t], d.Size()) && out.afd.states[t] == Joined(d.labels, comps[t]))
      && AllFound(d, out.afd.states)
      && out.afd == MinimizedAutomaton(d, out.afd.states, out.afd.start, out.afd.finals)
      && Disjoint(comps) && Separated(d, comps)
      && ValidateAfd(out.afd)
    ensures var d := ToMachine(a);
      && |Containing(comps, d.start)| == 1
      && InRange(Flatten(Containing(comps, d.start)), d.Size())
      && out.afd.start == Joined(d.labels, Flatten(Containing(comps, d.start)))
      && |out.afd.finals| == |Accepting(comps, d.final)|
      && (forall u :: 0 <= u < |out.afd.finals| ==>
            InRange(Accepting(comps, d.final)[u], d.Size()) &&
            out.afd.finals[u] == Joined(d.labels, Accepting(comps, d.final)[u]))
    ensures forall w :: IsWord(ToMachine(a), w) ==> RecordAccepts(out.afd, out.afd.start, w) == RecordAccepts(a, a.start, w)
  {
    var d := ToMachine(a);
    var m;
    ghost var M;
    m, M := EquivalenceTable(d);
    comps := CorrectedComposites(d, m, M);
    ContainingOne(comps, d.start);
    out := Assemble(d, comps);
    assert out.Minimized?;
    MinimizedLanguage(a, comps, out.afd);
  }

  /** A single composite flattens to itself. */
  lemma FlattenOne(c: seq<nat>)
    ensures Flatten([c]) == c
  {
    assert [c][..0] == [];
  }

  /** A record built from the classes, whose initial name is that of the
      one class holding the start state and whose final names are those of
      the classes meeting the final states, accepts exactly the words the
      loaded dictionary accepts. */
  lemma MinimizedLanguage(a: Automaton, comps: seq<seq<nat>>, afd: Automaton)
    requires Loadable(a)
    requires var d := ToMachine(a);
      && Classes(d, comps)
      && Named(d, comps, afd.states)
      && AllFound(d, afd.states)
      && afd == MinimizedAutomaton(d, afd.states, afd.start, afd.finals)
      && |Containing(comps, d.start)| == 1
      && InRange(Flatten(Containing(comps, d.start)), d.Size())
      && afd.start == Joined(d.labels, Flatten(Containing(comps, d.start)))
      && |afd.finals| == |Accepting(comps, d.final)|
      && (forall u :: 0 <= u < |afd.finals| ==>
            InRange(Accepting(comps, d.final)[u], d.Size()) &&
            afd.finals[u] == Joined(d.labels, Accepting(comps, d.final)[u]))
    ensures forall w :: IsWord(ToMachine(a), w) ==> RecordAccepts(afd, afd.start, w) == RecordAccepts(a, a.start, w)
  {
    var d := ToMachine(a);
    var c := Containing(comps, d.start)[0];
    assert c in Containing(comps, d.start);
    var t :| 0 <= t < |comps| && comps[t] == c;
    assert Containing(comps, d.start) == [c];
    FlattenOne(c);
    assert afd.start == afd.states[t];
    forall w | IsWord(d, w) ensures RecordAccepts(afd, afd.start, w) == RecordAccepts(a, a.start, w) {
      RecordLanguage(d, comps, afd.states, afd.start, afd.finals, t, d.start, w);
      assert RecordAccepts(afd, afd.states[t], w) == Accepts(d, d.start, w);
      RecordAcceptsIsAccepts(a, w);
    }
  }
}
