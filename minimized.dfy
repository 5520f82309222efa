/** The minimized automaton (main.py:446-478): its transition dictionary,
    built by a `next(...)` search over the composite names, and the record
    in the loader's format.  Also the whole minimization pass of `main`
    (main.py:249-478) as one method. */
module Minimized {
  import opened Basics
  import opened Dfa
  import opened Validation
  import opened Table
  import opened Partition
  import opened Naming

  /** Position of the first sequence in xs that holds x: the first name
      containing a label character, or the first composite holding a state. */
  function FirstWith<T(==)>(xs: seq<seq<T>>, x: T): (r: Option<nat>)
    ensures r.None? <==> forall t :: 0 <= t < |xs| ==> x !in xs[t]
    ensures r.Some? ==> r.value < |xs| && x in xs[r.value]
    ensures r.Some? ==> forall t :: 0 <= t < r.value ==> x !in xs[t]
  {
    if xs == [] then None
    else if x in xs[0] then Some(0)
    else match FirstWith(xs[1..], x)
      case None => None
      case Some(k) => Some(k + 1)
  }

  /** The state whose label is c: the key lookup `afd['transicoes'][c]`. */
  function StateOf(d: Machine, c: char): (r: Option<nat>)
    requires Valid(d)
    ensures r.None? <==> c !in d.labels
    ensures r.Some? ==> r.value < d.Size() && d.labels[r.value] == c
  {
    if c in d.labels then
      var p :| 0 <= p < d.Size() && d.labels[p] == c;
      Some(p)
    else None
  }

  /** How the `next(...)` of main.py:452-462 ends. */
  datatype Next =
    | Found(name: string)      // the first name that matched
    | NoSuchState(c: char)     // KeyError: a character that is no state label
    | Exhausted                // StopIteration: no character left to try

  /** The generator of main.py:452-462, for symbol s and the characters
      `chars` of the origin name: for each character in turn, look up its
      successor on s and return the first name containing the successor's
      label; only when no name does is the next character tried.  The lookup
      sits inside the loop over the names, so with no names it is never made. */
  function NextTarget(d: Machine, names: seq<string>, chars: string, s: nat): (r: Next)
    requires Valid(d) && s < d.Width()
    ensures r.Found? ==> r.name in names
    ensures chars == [] ==> r == Exhausted
    decreases |chars|
  {
    if chars == [] || names == [] then Exhausted
    else match StateOf(d, chars[0])
      case None => NoSuchState(chars[0])
      case Some(q) =>
        match FirstWith(names, d.labels[d.delta[q][s]])
        case Some(t) => Found(names[t])
        case None => NextTarget(d, names, chars[1..], s)
  }

  /** Every search of the table succeeds. */
  predicate AllFound(d: Machine, names: seq<string>)
    requires Valid(d)
  {
    forall nm, s :: nm in names && 0 <= s < d.Width() ==> NextTarget(d, names, nm, s).Found?
  }

  /** The inner dictionary for one origin name: one entry per symbol, in
      alphabet order. */
  function TableRow(d: Machine, names: seq<string>, origin: string): (row: Row)
    requires Valid(d) && AllFound(d, names) && origin in names
    ensures row.origin == origin && |row.entries| == d.Width()
    ensures forall s :: 0 <= s < d.Width() ==>
      row.entries[s] == Entry(d.alphabet[s], NextTarget(d, names, origin, s).name)
  {
    Row(origin, seq(d.Width(), s requires 0 <= s < d.Width() => Entry(d.alphabet[s], NextTarget(d, names, origin, s).name)))
  }

  /** The dictionary comprehension of main.py:446-469, as its rows in key
      order: a name that occurs twice is one key, at its first position.
      `None` stands for the exception the first failing search raises.  The
      table has a row for exactly the names, each listing every symbol once,
      in alphabet order, with a name as destination. */
  function TransitionTable(d: Machine, names: seq<string>): (r: Option<seq<Row>>)
    requires Valid(d)
    ensures r.Some? <==> AllFound(d, names)
    ensures r.Some? ==> |r.value| == |Dedup(names)|
    ensures r.Some? ==> forall i :: 0 <= i < |r.value| ==> r.value[i].origin == Dedup(names)[i]
    ensures r.Some? ==> forall i :: 0 <= i < |r.value| ==> |r.value[i].entries| == d.Width()
    ensures r.Some? ==> forall i, s :: 0 <= i < |r.value| && 0 <= s < d.Width() ==>
      && r.value[i].entries[s].symbol == d.alphabet[s]
      && r.value[i].entries[s].target in names
  {
    if AllFound(d, names) then
      var keys := Dedup(names);
      Some(seq(|keys|, i requires 0 <= i < |keys| => TableRow(d, names, keys[i])))
    else None
  }

  /** The elements of xs in order of first occurrence: the key order of a
      dictionary built from xs. */
  function Dedup(xs: seq<string>): (r: seq<string>)
    ensures Distinct(r) && forall x :: x in r <==> x in xs
  {
    if xs == [] then []
    else
      var d := Dedup(xs[..|xs| - 1]);
      var last := xs[|xs| - 1];
      assert xs == xs[..|xs| - 1] + [last];
      if last in d then d else d + [last]
  }

  /** `afd_minimizado` (main.py:472-478): the original alphabet, the
      composite names as states, the initial and final names, and the rows
      of the table. */
  function MinimizedAutomaton(d: Machine, names: seq<string>, startName: string, finalNames: seq<string>): (a: Automaton)
    requires Valid(d) && AllFound(d, names)
    ensures a.alphabet == d.alphabet && a.states == names && a.start == startName && a.finals == finalNames
    ensures a.rows == TransitionTable(d, names).value
  {
    Automaton(d.alphabet, names, startName, finalNames, TransitionTable(d, names).value)
  }

  /** The minimized automaton is a well-formed dictionary whose rows pass the
      row checks; it passes the loader's validation exactly when its initial
      name and its final names are state names. */
  lemma MinimizedValidates(d: Machine, names: seq<string>, startName: string, finalNames: seq<string>)
    requires Valid(d) && AllFound(d, names)
    ensures var a := MinimizedAutomaton(d, names, startName, finalNames);
      && IsDict(a)
      && (forall i :: 0 <= i < |a.rows| ==> RowOk(a, a.rows[i]))
      && (ValidateAfd(a) <==> startName in names && forall f :: f in finalNames ==> f in names)
  {
    var a := MinimizedAutomaton(d, names, startName, finalNames);
    forall i | 0 <= i < |a.rows| ensures RowOk(a, a.rows[i]) {
      MinimizedRowOk(d, a, i);
    }
    forall i, j | 0 <= i < j < |a.rows| ensures a.rows[i].origin != a.rows[j].origin {
      assert a.rows[i].origin == Dedup(names)[i] && a.rows[j].origin == Dedup(names)[j];
    }
    if ValidateAfd(a) {
      forall f | f in finalNames ensures f in names {
        var u :| 0 <= u < |finalNames| && finalNames[u] == f;
      }
    }
  }

  lemma MinimizedRowOk(d: Machine, a: Automaton, i: nat)
    requires Valid(d) && AllFound(d, a.states)
    requires a == MinimizedAutomaton(d, a.states, a.start, a.finals)
    requires i < |a.rows|
    ensures RowOk(a, a.rows[i])
  {
    var row := a.rows[i];
    assert row.origin == Dedup(a.states)[i];
    forall k | 0 <= k < |row.entries| ensures EntryOk(a, row.entries[k]) {
      assert row.entries[k].symbol == d.alphabet[k];
    }
  }

  // ---------------------------------------------------------------------
  // What the table means for the composites.

  /** The names are those of the composites, composites hold states only,
      and every state lies in some composite. */
  ghost predicate Named(d: Machine, comps: seq<seq<nat>>, names: seq<string>)
    requires Valid(d)
  {
    && |names| == |comps|
    && (forall t :: 0 <= t < |comps| ==> InRange(comps[t], d.Size()))
    && (forall t :: 0 <= t < |comps| ==> names[t] == Joined(d.labels, comps[t]))
    && Members(comps) == AllStates(d.Size())
  }

  /** Searching the names for a state's label finds the first composite
      holding that state. */
  lemma {:induction false} SearchByLabel(d: Machine, comps: seq<seq<nat>>, names: seq<string>, q: nat)
    requires Valid(d) && Named(d, comps, names) && q < d.Size()
    ensures FirstWith(names, d.labels[q]) == FirstWith(comps, q)
    ensures FirstWith(comps, q).Some?
  {
    forall t | 0 <= t < |comps| ensures d.labels[q] in names[t] <==> q in comps[t] {
      NameMembers(d, comps[t], q);
    }
    FirstWithAgree(names, d.labels[q], comps, q);
    assert q in AllStates(d.Size());
    MembersSpec(comps);
    assert q in Members(comps);
  }

  /** Searches over two lists of the same length whose entries hold x and y
      at the same positions stop at the same position. */
  lemma FirstWithAgree<S, T>(A: seq<seq<S>>, x: S, B: seq<seq<T>>, y: T)
    requires |A| == |B| && forall t :: 0 <= t < |A| ==> (x in A[t] <==> y in B[t])
    ensures FirstWith(A, x) == FirstWith(B, y)
  {
  }

  /** The transition of a non-empty composite C on symbol s goes to the
      first composite that holds the successor of C's FIRST member: the
      other members are never consulted. */
  lemma CompositeTransition(d: Machine, comps: seq<seq<nat>>, names: seq<string>, t: nat, s: nat)
    requires Valid(d) && Named(d, comps, names)
    requires t < |comps| && comps[t] != [] && s < d.Width()
    ensures FirstWith(comps, d.delta[comps[t][0]][s]).Some?
    ensures NextTarget(d, names, names[t], s) == Found(names[FirstWith(comps, d.delta[comps[t][0]][s]).value])
  {
    var p := comps[t][0];
    NameMembers(d, comps[t], p);
    assert names[t][0] == d.labels[p];
    assert StateOf(d, d.labels[p]) == Some(p) by {
      var r := StateOf(d, d.labels[p]).value;
      assert d.labels[r] == d.labels[p];
    }
    SearchByLabel(d, comps, names, d.delta[p][s]);
  }

  /** The table exists exactly when the alphabet is empty or no composite
      is empty; an empty composite has the empty name, on which the search
      runs out of characters. */
  lemma TableExists(d: Machine, comps: seq<seq<nat>>, names: seq<string>)
    requires Valid(d) && Named(d, comps, names)
    ensures AllFound(d, names) <==> d.Width() == 0 || NoneEmpty(comps)
  {
    if d.Width() > 0 && !NoneEmpty(comps) {
      var t :| 0 <= t < |comps| && comps[t] == [];
      assert names[t] == [] && names[t] in names;
      assert !NextTarget(d, names, names[t], 0).Found?;
    }
    if NoneEmpty(comps) {
      forall nm, s | nm in names && 0 <= s < d.Width() ensures NextTarget(d, names, nm, s).Found? {
        var t :| 0 <= t < |names| && names[t] == nm;
        CompositeTransition(d, comps, names, t, s);
      }
    }
  }

  /** In the minimized automaton, the row of composite t maps symbol s to
      the name of the first composite holding the successor of t's first
      member. */
  lemma MinimizedTransition(d: Machine, comps: seq<seq<nat>>, names: seq<string>, startName: string,
                            finalNames: seq<string>, t: nat, s: nat)
    requires Valid(d) && Named(d, comps, names) && NoneEmpty(comps)
    requires t < |comps| && s < d.Width()
    ensures AllFound(d, names)
    ensures FirstWith(comps, d.delta[comps[t][0]][s]).Some?
    ensures var a := MinimizedAutomaton(d, names, startName, finalNames);
      && names[t] in RowOrigins(a)
      && Lookup(a.rows[RowFor(a, names[t])].entries, d.alphabet[s])
         == Some(names[FirstWith(comps, d.delta[comps[t][0]][s]).value])
  {
    TableExists(d, comps, names);
    CompositeTransition(d, comps, names, t, s);
    RowOfName(d, names, startName, finalNames, names[t]);
    var a := MinimizedAutomaton(d, names, startName, finalNames);
    LookupInAlphabetOrder(a.rows[RowFor(a, names[t])].entries, d.alphabet, s);
  }

  /** The row the record holds for a name is the table's row for it. */
  lemma RowOfName(d: Machine, names: seq<string>, startName: string, finalNames: seq<string>, nm: string)
    requires Valid(d) && AllFound(d, names) && nm in names
    ensures var a := MinimizedAutomaton(d, names, startName, finalNames);
      nm in RowOrigins(a) && a.rows[RowFor(a, nm)] == TableRow(d, names, nm)
  {
    var a := MinimizedAutomaton(d, names, startName, finalNames);
    assert nm in Dedup(names);
    var i :| 0 <= i < |Dedup(names)| && Dedup(names)[i] == nm;
    assert RowOrigins(a)[i] == nm;
    var k := RowFor(a, nm);
    assert a.rows[k].origin == Dedup(names)[k];
  }

  /** Looking a symbol up in entries listed in the order of an alphabet
      without repetition finds the entry at the symbol's position. */
  lemma LookupInAlphabetOrder(es: seq<Entry>, alphabet: seq<string>, s: nat)
    requires Distinct(alphabet) && |es| == |alphabet| && s < |alphabet|
    requires forall k :: 0 <= k < |es| ==> es[k].symbol == alphabet[k]
    ensures Lookup(es, alphabet[s]) == Some(es[s].target)
  {
    assert Symbols(es)[s] == alphabet[s];
    var r := Lookup(es, alphabet[s]);
    var k :| 0 <= k < |es| && es[k].symbol == alphabet[s] && es[k].target == r.value;
  }

  // ---------------------------------------------------------------------
  // The whole pass, main.py:249-478.

  datatype Outcome =
    | Minimized(afd: Automaton)
    | StopIteration   // the `next(...)` on the name of an empty composite

  /** The table the derivation stage leaves behind. */
  function DerivedTable(d: Machine): (M: seq<seq<int>>)
    requires Valid(d)
    ensures IsSquare(M, d.Size())
  {
    Pass(d, BaseTable(d), d.Size())
  }

  /** A cover of the states by composites names states only. */
  lemma CoverInRange(comps: seq<seq<nat>>, n: nat)
    requires Members(comps) == AllStates(n)
    ensures forall t :: 0 <= t < |comps| ==> InRange(comps[t], n)
  {
    MembersSpec(comps);
    forall t, k | 0 <= t < |comps| && 0 <= k < |comps[t]| ensures comps[t][k] < n {
      assert comps[t][k] in Members(comps);
    }
  }

  /** Two states that are both final or both not. */
  ghost function SameFinality(d: Machine): (nat, nat) -> bool {
    (p: nat, q: nat) => (p in d.final <==> q in d.final)
  }

  /** main.py:249-384: the matrix stages and the composite states.  The
      composites before the last hold exactly the states of the unmarked
      pairs of the derived table, each such pair inside one of them.  Every
      composite but the last is all final or all non-final: the derived
      table leaves a pair unmarked only when its states agree on finality. */
  method BuildComposites(d: Machine) returns (comps: seq<seq<nat>>)
    requires Valid(d)
    ensures |comps| > 0
    ensures Members(comps) == AllStates(d.Size())
    ensures Members(comps[..|comps| - 1]) == Members(ZeroPairs(DerivedTable(d), d.Size()))
    ensures Covers(ZeroPairs(DerivedTable(d), d.Size()), comps[..|comps| - 1])
    ensures Elements(comps[|comps| - 1]) == AllStates(d.Size()) - Members(ZeroPairs(DerivedTable(d), d.Size()))
    ensures NoneEmpty(comps[..|comps| - 1])
    ensures Cliques(comps[..|comps| - 1], SameFinality(d))
  {
    var m := NewMatrix(d.Size());
    FillBase(d, m);
    DerivePass(d, m, BaseTable(d));
    DerivedTableShape(d);
    comps := Composites(m, DerivedTable(d), SameFinality(d));
  }

  /** main.py:386-478: initial and final composites, names, table, record.
      The pass fails exactly when some composite is empty and the alphabet
      is not.  Otherwise the states are the composite names, the initial
      name joins every composite holding the start state, the final names
      are those of the composites meeting the final states, the rows are the
      table over the names, and the record validates when exactly one
      composite holds the start state. */
  method Assemble(d: Machine, comps: seq<seq<nat>>) returns (out: Outcome)
    requires Valid(d) && Members(comps) == AllStates(d.Size())
    ensures forall t :: 0 <= t < |comps| ==> InRange(comps[t], d.Size())
    ensures out.StopIteration? <==> d.Width() > 0 && !NoneEmpty(comps)
    ensures out.Minimized? ==> && |out.afd.states| == |comps|
                               && (forall t :: 0 <= t < |comps| ==> out.afd.states[t] == Joined(d.labels, comps[t]))
                               && AllFound(d, out.afd.states)
                               && out.afd == MinimizedAutomaton(d, out.afd.states, out.afd.start, out.afd.finals)
    ensures out.Minimized? ==> (InRange(Flatten(Containing(comps, d.start)), d.Size()) &&
                                out.afd.start == Joined(d.labels, Flatten(Containing(comps, d.start))))
    ensures forall u :: 0 <= u < |Accepting(comps, d.final)| ==> InRange(Accepting(comps, d.final)[u], d.Size())
    ensures out.Minimized? ==> (|out.afd.finals| == |Accepting(comps, d.final)| &&
                                forall u :: 0 <= u < |out.afd.finals| ==>
                                  out.afd.finals[u] == Joined(d.labels, Accepting(comps, d.final)[u]))
    ensures out.Minimized? && |Containing(comps, d.start)| == 1 ==> ValidateAfd(out.afd)
  {
    CoverInRange(comps, d.Size());
    var startComps, finalComps := SelectStartAndFinals(d.start, d.final, comps);
    SelectedInRange(comps, startComps, d.Size());
    SelectedInRange(comps, finalComps, d.Size());
    var names := NameAll(d.labels, comps);
    var startName := StartName(d.labels, startComps);
    var finalNames := NameAll(d.labels, finalComps);
    assert Named(d, comps, names);
    TableExists(d, comps, names);
    var table := TransitionTable(d, names);
    if table.None? {
      out := StopIteration;
    } else {
      out := Minimized(Automaton(d.alphabet, names, startName, finalNames, table.value));
      if |startComps| == 1 {
        FinalNamesDeclared(d, comps, names, finalComps, finalNames);
        assert startComps[0] in startComps;
        var v :| 0 <= v < |comps| && comps[v] == startComps[0];
        assert names[v] == startName;
        MinimizedValidates(d, names, startName, finalNames);
      }
    }
  }

  /** Composites picked from a cover of the states name states only. */
  lemma SelectedInRange(comps: seq<seq<nat>>, picked: seq<seq<nat>>, n: nat)
    requires forall t :: 0 <= t < |comps| ==> InRange(comps[t], n)
    requires forall c :: c in picked ==> c in comps
    ensures forall u :: 0 <= u < |picked| ==> InRange(picked[u], n)
  {
    forall u | 0 <= u < |picked| ensures InRange(picked[u], n) {
      assert picked[u] in picked;
      var v :| 0 <= v < |comps| && comps[v] == picked[u];
    }
  }

  /** The name of every final composite is a state name. */
  lemma FinalNamesDeclared(d: Machine, comps: seq<seq<nat>>, names: seq<string>, finalComps: seq<seq<nat>>,
                           finalNames: seq<string>)
    requires Valid(d) && Named(d, comps, names)
    requires forall c :: c in finalComps ==> c in comps
    requires |finalNames| == |finalComps|
    requires forall u :: 0 <= u < |finalComps| ==> InRange(finalComps[u], d.Size())
    requires forall u :: 0 <= u < |finalComps| ==> finalNames[u] == Joined(d.labels, finalComps[u])
    ensures forall f :: f in finalNames ==> f in names
  {
    forall f | f in finalNames ensures f in names {
      var u :| 0 <= u < |finalNames| && finalNames[u] == f;
      assert finalComps[u] in finalComps;
      var v :| 0 <= v < |comps| && comps[v] == finalComps[u];
      assert names[v] == f;
    }
  }

  /** The minimization of `main` (main.py:249-478) on a loaded automaton,
      returning the composite states it built along with the outcome.  The
      last composite holds exactly the states in no unmarked pair of the
      derived table, so the pass fails exactly when the alphabet is not
      empty and every state is in some unmarked pair.  The others group the
      unmarked pairs, and a record, when built, names them as Assemble
      describes. */
  method Minimize(a: Automaton) returns (comps: seq<seq<nat>>, out: Outcome)
    requires Loadable(a)
    ensures var d := ToMachine(a);
      && |comps| > 0
      && Members(comps) == AllStates(d.Size())
      && Members(comps[..|comps| - 1]) == Members(ZeroPairs(DerivedTable(d), d.Size()))
      && Covers(ZeroPairs(DerivedTable(d), d.Size()), comps[..|comps| - 1])
      && Elements(comps[|comps| - 1]) == AllStates(d.Size()) - Members(ZeroPairs(DerivedTable(d), d.Size()))
      && Cliques(comps[..|comps| - 1], SameFinality(d))
      && (out.StopIteration? <==> d.Width() > 0 && comps[|comps| - 1] == [])
      && (out.Minimized? && |Containing(comps, d.start)| == 1 ==> ValidateAfd(out.afd))
    ensures var d := ToMachine(a);
      out.Minimized? ==>
        && out.afd.alphabet == a.alphabet
        && |out.afd.states| == |comps|
        && (forall t :: 0 <= t < |comps| ==>
              InRange(comps[t], d.Size()) && out.afd.states[t] == Joined(d.labels, comps[t]))
        && AllFound(d, out.afd.states)
        && out.afd == MinimizedAutomaton(d, out.afd.states, out.afd.start, out.afd.finals)
        && InRange(Flatten(Containing(comps, d.start)), d.Size())
        && out.afd.start == Joined(d.labels, Flatten(Containing(comps, d.start)))
        && |out.afd.finals| == |Accepting(comps, d.final)|
        && (forall u :: 0 <= u < |out.afd.finals| ==>
              InRange(Accepting(comps, d.final)[u], d.Size()) &&
              out.afd.finals[u] == Joined(d.labels, Accepting(comps, d.final)[u]))
  {
    var d := ToMachine(a);
    comps := BuildComposites(d);
    forall t | 0 <= t < |comps| - 1 ensures comps[t] != [] {
      assert comps[t] == comps[..|comps| - 1][t];
    }
    out := Assemble(d, comps);
  }
}
