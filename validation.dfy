/** The automaton dictionary produced by the loader (`ler_afd`) and the
    validator `validar_afd` (main.py:68-122), which reports the first check
    that fails, in the order the source performs them.  Also the bridge from
    a validated dictionary to the index-level `Dfa.Machine` the minimizer
    works on. */
module Validation {
  import opened Basics
  import opened Dfa

  /** One `simbolo: destino` item of a transition row, in insertion order. */
  datatype Entry = Entry(symbol: string, target: string)

  /** `afd['transicoes'][origin]`: the transitions leaving one origin. */
  datatype Row = Row(origin: string, entries: seq<Entry>)

  /** The loader's dictionary: `alfa`, `estados`, `inicial`, `finais` and
      `transicoes`, the last as its rows in insertion order. */
  datatype Automaton = Automaton(
    alphabet: seq<string>,
    states: seq<string>,
    start: string,
    finals: seq<string>,
    rows: seq<Row>)

  /** The check that rejected the automaton, with the offending item. */
  datatype Failure =
    | StartUndeclared(state: string)
    | FinalUndeclared(state: string)
    | OriginUndeclared(state: string)
    | RowIncomplete(state: string)
    | TargetUndeclared(state: string)
    | SymbolUnknown(symbol: string)
    | SymbolRepeated(symbol: string, state: string)
  {
    /** A failure found while scanning the transition rows. */
    predicate InRows() {
      OriginUndeclared? || RowIncomplete? || TargetUndeclared? || SymbolUnknown? || SymbolRepeated?
    }
  }

  /** Python dictionaries have unique keys: rows have distinct origins and
      each row has distinct symbols. */
  predicate IsDict(a: Automaton) {
    && (forall i, j :: 0 <= i < j < |a.rows| ==> a.rows[i].origin != a.rows[j].origin)
    && (forall i :: 0 <= i < |a.rows| ==> DistinctSymbols(a.rows[i].entries))
  }

  predicate DistinctSymbols(es: seq<Entry>) {
    forall i, j :: 0 <= i < j < |es| ==> es[i].symbol != es[j].symbol
  }

  // ---------------------------------------------------------------------
  // The reference statement of what a valid automaton is.

  predicate EntryOk(a: Automaton, e: Entry) {
    e.target in a.states && e.symbol in a.alphabet
  }

  predicate RowOk(a: Automaton, row: Row) {
    && row.origin in a.states
    && |row.entries| == |a.alphabet|
    && (forall i :: 0 <= i < |row.entries| ==> EntryOk(a, row.entries[i]))
    && DistinctSymbols(row.entries)
  }

  /** Every check of `validar_afd` holds. */
  predicate AllChecks(a: Automaton) {
    && a.start in a.states
    && (forall i :: 0 <= i < |a.finals| ==> a.finals[i] in a.states)
    && (forall i :: 0 <= i < |a.rows| ==> RowOk(a, a.rows[i]))
  }

  // ---------------------------------------------------------------------
  // The validator, check by check.

  /** The first position at or after `from` whose item is not in `within`. */
  function FirstOutside(xs: seq<string>, within: seq<string>, from: nat): (r: Option<nat>)
    requires from <= |xs|
    ensures r.None? <==> forall i :: from <= i < |xs| ==> xs[i] in within
    ensures r.Some? ==> from <= r.value < |xs| && xs[r.value] !in within
    ensures r.Some? ==> forall i :: from <= i < r.value ==> xs[i] in within
    decreases |xs| - from
  {
    if from == |xs| then None
    else if xs[from] !in within then Some(from)
    else FirstOutside(xs, within, from + 1)
  }

  /** Destination and symbol checks of one row (main.py:98-108). */
  function CheckEntries(a: Automaton, es: seq<Entry>, from: nat): (r: Option<Failure>)
    requires from <= |es|
    ensures r.None? <==> forall i :: from <= i < |es| ==> EntryOk(a, es[i])
    ensures r.Some? ==> exists i :: (from <= i < |es| && !EntryOk(a, es[i]) &&
      r.value == if es[i].target !in a.states then TargetUndeclared(es[i].target) else SymbolUnknown(es[i].symbol))
    ensures r.Some? ==> exists i :: (from <= i < |es| && !EntryOk(a, es[i]) &&
      (forall j :: from <= j < i ==> EntryOk(a, es[j])) &&
      r.value == if es[i].target !in a.states then TargetUndeclared(es[i].target) else SymbolUnknown(es[i].symbol))
    decreases |es| - from
  {
    if from == |es| then None
    else if es[from].target !in a.states then Some(TargetUndeclared(es[from].target))
    else if es[from].symbol !in a.alphabet then Some(SymbolUnknown(es[from].symbol))
    else CheckEntries(a, es, from + 1)
  }

  /** How many entries of `es` carry symbol `x`: the counter `simbolos_vistos[x]`. */
  function Occurrences(es: seq<Entry>, x: string): nat {
    if es == [] then 0 else (if es[0].symbol == x then 1 else 0) + Occurrences(es[1..], x)
  }

  /** Some entry other than the i-th carries the i-th symbol exactly when the
      counter of that symbol exceeds one. */
  lemma {:induction false} OccurrencesRepeated(es: seq<Entry>, i: nat)
    requires i < |es|
    ensures Occurrences(es, es[i].symbol) > 1 <==> exists j :: 0 <= j < |es| && j != i && es[j].symbol == es[i].symbol
  {
    var x := es[i].symbol;
    var tail := es[1..];
    OccurrencesZero(tail, x);
    if i == 0 {
      if Occurrences(tail, x) > 0 {
        var k :| 0 <= k < |tail| && tail[k].symbol == x;
        assert es[k + 1].symbol == x;
      }
      forall j | 0 < j < |es| && es[j].symbol == x ensures Occurrences(tail, x) > 0 {
        assert tail[j - 1].symbol == x;
      }
    } else {
      OccurrencesRepeated(tail, i - 1);
      assert tail[i - 1] == es[i];
      if es[0].symbol == x {
        assert Occurrences(tail, x) > 0;
      } else {
        assert Occurrences(es, x) == Occurrences(tail, x);
        if Occurrences(tail, x) > 1 {
          var j :| 0 <= j < |tail| && j != i - 1 && tail[j].symbol == x;
          assert es[j + 1].symbol == x;
        }
        forall j | 0 <= j < |es| && j != i && es[j].symbol == x ensures Occurrences(tail, x) > 1 {
          assert tail[j - 1].symbol == x;
        }
      }
    }
  }

  lemma {:induction false} OccurrencesZero(es: seq<Entry>, x: string)
    ensures Occurrences(es, x) > 0 <==> exists k :: 0 <= k < |es| && es[k].symbol == x
  {
    if es != [] {
      OccurrencesZero(es[1..], x);
      if Occurrences(es[1..], x) > 0 {
        var k :| 0 <= k < |es[1..]| && es[1..][k].symbol == x;
        assert es[k + 1].symbol == x;
      }
      forall k | 0 < k < |es| && es[k].symbol == x ensures Occurrences(es[1..], x) > 0 {
        assert es[1..][k - 1].symbol == x;
      }
    }
  }

  /** The first entry at or after `from` whose symbol is counted more than
      once: the first key with `quantidade > 1` in the counter's insertion
      order (main.py:110-119). */
  function FirstRepeated(es: seq<Entry>, from: nat): (r: Option<nat>)
    requires from <= |es|
    ensures r.Some? ==> from <= r.value < |es| && Occurrences(es, es[r.value].symbol) > 1
    ensures r.None? ==> forall i :: from <= i < |es| ==> Occurrences(es, es[i].symbol) <= 1
    decreases |es| - from
  {
    if from == |es| then None
    else if Occurrences(es, es[from].symbol) > 1 then Some(from)
    else FirstRepeated(es, from + 1)
  }

  /** The counter finds no repeated symbol exactly when the row's symbols are distinct. */
  lemma NoRepeatIffDistinct(es: seq<Entry>)
    ensures FirstRepeated(es, 0).None? <==> DistinctSymbols(es)
  {
    if FirstRepeated(es, 0).Some? {
      var i := FirstRepeated(es, 0).value;
      OccurrencesRepeated(es, i);
    } else {
      forall i, j | 0 <= i < j < |es| ensures es[i].symbol != es[j].symbol {
        OccurrencesRepeated(es, i);
      }
    }
  }

  /** The failure f was found in row: an origin or size failure names the
      row's origin, a repetition names it too and the row repeats a symbol,
      and an entry failure is the one the entry checks report for the row. */
  predicate Concerns(a: Automaton, f: Failure, row: Row) {
    && (f.OriginUndeclared? ==> f.state == row.origin && row.origin !in a.states)
    && (f.RowIncomplete? ==> f.state == row.origin && |row.entries| != |a.alphabet|)
    && (f.SymbolRepeated? ==> f.state == row.origin && !DistinctSymbols(row.entries))
    && (f.TargetUndeclared? || f.SymbolUnknown? ==> CheckEntries(a, row.entries, 0) == Some(f))
  }

  /** The checks of the rows at or after `from`, in dictionary order
      (main.py:84-119). */
  function CheckRows(a: Automaton, from: nat): (r: Option<Failure>)
    requires from <= |a.rows|
    ensures r.None? <==> forall i :: from <= i < |a.rows| ==> RowOk(a, a.rows[i])
    ensures r.Some? ==> r.value.InRows()
    ensures r.Some? && r.value.SymbolRepeated? ==>
      exists i :: from <= i < |a.rows| && !DistinctSymbols(a.rows[i].entries)
    decreases |a.rows| - from
  {
    if from == |a.rows| then None
    else
      var row := a.rows[from];
      if row.origin !in a.states then Some(OriginUndeclared(row.origin))
      else if |row.entries| != |a.alphabet| then Some(RowIncomplete(row.origin))
      else match CheckEntries(a, row.entries, 0)
        case Some(f) => Some(f)
        case None =>
          NoRepeatIffDistinct(row.entries);
          match FirstRepeated(row.entries, 0)
          case Some(i) => Some(SymbolRepeated(row.entries[i].symbol, row.origin))
          case None => CheckRows(a, from + 1)
  }

  /** The rows are checked in order: a reported failure belongs to the
      first row, at or after `from`, that fails a check. */
  lemma {:induction false} FirstFailingRow(a: Automaton, from: nat)
    requires from <= |a.rows|
    ensures var r := CheckRows(a, from);
      r.Some? ==> exists i :: (from <= i < |a.rows| && !RowOk(a, a.rows[i]) &&
        (forall j :: from <= j < i ==> RowOk(a, a.rows[j])) && Concerns(a, r.value, a.rows[i]))
    decreases |a.rows| - from
  {
    var r := CheckRows(a, from);
    if r.Some? {
      var row := a.rows[from];
      NoRepeatIffDistinct(row.entries);
      if RowOk(a, row) {
        assert r == CheckRows(a, from + 1);
        FirstFailingRow(a, from + 1);
        var i :| from + 1 <= i < |a.rows| && !RowOk(a, a.rows[i]) &&
          (forall j :: from + 1 <= j < i ==> RowOk(a, a.rows[j])) && Concerns(a, r.value, a.rows[i]);
        assert forall j :: from <= j < i ==> RowOk(a, a.rows[j]);
      } else {
        assert Concerns(a, r.value, row);
      }
    }
  }

  /** `validar_afd` with its diagnosis: the first failing check, or None.
      The checks run in the source's order, so a failure of a later check
      implies that every earlier check passed. */
  function FirstFailure(a: Automaton): (r: Option<Failure>)
    ensures r.None? <==> AllChecks(a)
    ensures (r.Some? && r.value.StartUndeclared?) <==> a.start !in a.states
    ensures r.Some? && r.value.FinalUndeclared? ==>
      a.start in a.states && r.value.state in a.finals && r.value.state !in a.states
    ensures r.Some? && r.value.InRows() ==>
      a.start in a.states && forall i :: 0 <= i < |a.finals| ==> a.finals[i] in a.states
  {
    if a.start !in a.states then Some(StartUndeclared(a.start))
    else match FirstOutside(a.finals, a.states, 0)
      case Some(i) => Some(FinalUndeclared(a.finals[i]))
      case None => CheckRows(a, 0)
  }

  /** `validar_afd(afd)`: True exactly when every check holds. */
  function ValidateAfd(a: Automaton): (ok: bool)
    ensures ok <==> AllChecks(a)
  {
    FirstFailure(a).None?
  }

  // ---------------------------------------------------------------------
  // What validation does and does not guarantee.

  /** Rows are dictionaries, so the repeated-symbol check (main.py:110-119)
      can never be the one that fails. */
  lemma RepeatedSymbolNeverReported(a: Automaton)
    requires IsDict(a)
    ensures FirstFailure(a).None? || !FirstFailure(a).value.SymbolRepeated?
  {
  }

  /** Validation only inspects rows that exist (main.py:84): a declared state
      with no row at all passes. */
  lemma RowlessStatePasses()
    ensures exists a :: ValidateAfd(a) && IsDict(a) && |a.states| == 2 && a.states[1] !in RowOrigins(a)
  {
    var a := Automaton(["0"], ["A", "B"], "A", [], [Row("A", [Entry("0", "A")])]);
    assert RowOk(a, a.rows[0]);
    assert ValidateAfd(a);
    assert a.states[1] !in RowOrigins(a);
  }

  function RowOrigins(a: Automaton): (r: seq<string>)
    ensures |r| == |a.rows| && forall i :: 0 <= i < |r| ==> r[i] == a.rows[i].origin
  {
    seq(|a.rows|, i requires 0 <= i < |a.rows| => a.rows[i].origin)
  }

  /** The symbols of a row, in insertion order. */
  function Symbols(es: seq<Entry>): (r: seq<string>)
    ensures |r| == |es| && forall k :: 0 <= k < |es| ==> r[k] == es[k].symbol
  {
    seq(|es|, k requires 0 <= k < |es| => es[k].symbol)
  }

  /** Completeness follows from the length check: a row that passes has
      `len(alfa)` distinct symbols, all from the alphabet, so it has an entry
      for every alphabet symbol and the alphabet has no repetition. */
  lemma {:induction false} RowCoversAlphabet(a: Automaton, row: Row)
    requires RowOk(a, row)
    ensures Distinct(a.alphabet)
    ensures forall x :: x in a.alphabet ==> x in Symbols(row.entries)
  {
    var syms := Symbols(row.entries);
    ElementsCard(syms);
    ElementsCard(a.alphabet);
    assert Elements(syms) <= Elements(a.alphabet) by {
      forall x | x in Elements(syms) ensures x in Elements(a.alphabet) {
        var k :| 0 <= k < |syms| && syms[k] == x;
        assert EntryOk(a, row.entries[k]);
      }
    }
    SubsetCard(Elements(syms), Elements(a.alphabet));
    SubsetSameCard(Elements(syms), Elements(a.alphabet));
  }

  // ---------------------------------------------------------------------
  // From the dictionary to the index-level machine.

  /** The shape the minimizer needs beyond validation: every declared state
      has a row (otherwise `afd['transicoes'][i]` raises at main.py:313),
      state labels are distinct single characters other than ',' and ' '. */
  predicate Loadable(a: Automaton) {
    && ValidateAfd(a)
    && IsDict(a)
    && (forall q :: q in a.states ==> q in RowOrigins(a))
    && Distinct(a.states)
    && (forall i :: 0 <= i < |a.states| ==> |a.states[i]| == 1 && IsLabelChar(a.states[i][0]))
  }

  /** Position of the first occurrence of `x`. */
  function IndexOf(xs: seq<string>, x: string): (i: nat)
    requires x in xs
    ensures i < |xs| && xs[i] == x
    ensures forall j :: 0 <= j < i ==> xs[j] != x
  {
    if xs[0] == x then 0 else 1 + IndexOf(xs[1..], x)
  }

  /** The row whose origin is `q`. */
  function RowFor(a: Automaton, q: string): (i: nat)
    requires q in RowOrigins(a)
    ensures i < |a.rows| && a.rows[i].origin == q
  {
    IndexOf(RowOrigins(a), q)
  }

  /** Position of the entry for symbol `x`, searching from `from`. */
  function FindSymbol(es: seq<Entry>, x: string, from: nat): (r: Option<nat>)
    requires from <= |es|
    ensures r.None? <==> forall k :: from <= k < |es| ==> es[k].symbol != x
    ensures r.Some? ==> from <= r.value < |es| && es[r.value].symbol == x
    decreases |es| - from
  {
    if from == |es| then None
    else if es[from].symbol == x then Some(from)
    else FindSymbol(es, x, from + 1)
  }

  /** `row[x]`: the destination for symbol `x`, or None where Python raises KeyError. */
  function Lookup(es: seq<Entry>, x: string): (r: Option<string>)
    ensures r.None? <==> x !in Symbols(es)
    ensures r.Some? ==> exists k :: 0 <= k < |es| && es[k].symbol == x && es[k].target == r.value
  {
    match FindSymbol(es, x, 0)
    case None => None
    case Some(k) => Some(es[k].target)
  }

  /** The state the dictionary reaches from q by reading w, a word given by
      positions in `alfa`, one `transicoes` lookup per symbol; None where a
      lookup would raise KeyError.  The source never runs an automaton; this
      states what a minimized dictionary must preserve. */
  function RecordRun(a: Automaton, q: string, w: seq<nat>): Option<string>
    decreases |w|
  {
    if w == [] then Some(q)
    else if w[0] >= |a.alphabet| || q !in RowOrigins(a) then None
    else match Lookup(a.rows[RowFor(a, q)].entries, a.alphabet[w[0]])
      case None => None
      case Some(p) => RecordRun(a, p, w[1..])
  }

  /** The dictionary accepts w from q: the run ends in a listed final state. */
  predicate RecordAccepts(a: Automaton, q: string, w: seq<nat>) {
    var r := RecordRun(a, q, w);
    r.Some? && r.value in a.finals
  }

  /** Index of `afd['transicoes'][states[p]][alphabet[s]]` in the state list. */
  function TargetIndex(a: Automaton, p: nat, s: nat): (t: nat)
    requires Loadable(a) && p < |a.states| && s < |a.alphabet|
    ensures t < |a.states|
    ensures Lookup(a.rows[RowFor(a, a.states[p])].entries, a.alphabet[s]) == Some(a.states[t])
  {
    var row := a.rows[RowFor(a, a.states[p])];
    assert RowOk(a, row);
    RowCoversAlphabet(a, row);
    var r := Lookup(row.entries, a.alphabet[s]);
    assert r.value in a.states by {
      var k :| 0 <= k < |row.entries| && row.entries[k].symbol == a.alphabet[s] && row.entries[k].target == r.value;
      assert EntryOk(a, row.entries[k]);
    }
    IndexOf(a.states, r.value)
  }

  /** The transition table indexed by state and symbol position. */
  function Delta(a: Automaton): (delta: seq<seq<nat>>)
    requires Loadable(a)
    ensures |delta| == |a.states|
    ensures forall p :: 0 <= p < |a.states| ==> |delta[p]| == |a.alphabet|
    ensures forall p, s :: 0 <= p < |a.states| && 0 <= s < |a.alphabet| ==>
      delta[p][s] == TargetIndex(a, p, s) && delta[p][s] < |a.states|
  {
    seq(|a.states|, p requires 0 <= p < |a.states| =>
      seq(|a.alphabet|, s requires 0 <= s < |a.alphabet| => TargetIndex(a, p, s)))
  }

  /** The machine the minimizer reads: every lookup it makes at main.py:313
      and main.py:459 is defined and lands on a declared state. */
  function ToMachine(a: Automaton): (m: Machine)
    requires Loadable(a)
    ensures Valid(m)
    ensures m.Size() == |a.states| && m.alphabet == a.alphabet
    ensures forall p :: 0 <= p < m.Size() ==> [m.labels[p]] == a.states[p]
    ensures [m.labels[m.start]] == a.start
    ensures forall p :: 0 <= p < m.Size() ==> (p in m.final <==> a.states[p] in a.finals)
    ensures forall p, s :: 0 <= p < m.Size() && 0 <= s < m.Width() ==>
      Lookup(a.rows[RowFor(a, a.states[p])].entries, a.alphabet[s]) == Some(a.states[m.delta[p][s]])
  {
    var n := |a.states|;
    var labels := seq(n, p requires 0 <= p < n => a.states[p][0]);
    LabelsDistinct(a, labels);
    AlphabetDistinct(a);
    var final := set p | 0 <= p < n && a.states[p] in a.finals;
    var delta := Delta(a);
    var m := Machine(labels, a.alphabet, IndexOf(a.states, a.start), final, delta);
    MachineValid(m);
    m
  }

  /** Reading w in the dictionary from the name of state p follows the
      machine's run from p. */
  lemma {:induction false} RecordRunIsRun(a: Automaton, p: nat, w: seq<nat>)
    requires Loadable(a) && p < |a.states| && IsWord(ToMachine(a), w)
    ensures RecordRun(a, a.states[p], w) == Some(a.states[Run(ToMachine(a), p, w)])
    decreases |w|
  {
    if w != [] {
      var m := ToMachine(a);
      assert a.states[p] in a.states;
      RecordRunIsRun(a, m.delta[p][w[0]], w[1..]);
    }
  }

  /** The dictionary and its machine accept the same words from the initial
      state. */
  lemma RecordAcceptsIsAccepts(a: Automaton, w: seq<nat>)
    requires Loadable(a) && IsWord(ToMachine(a), w)
    ensures RecordAccepts(a, a.start, w) == Accepts(ToMachine(a), ToMachine(a).start, w)
  {
    var m := ToMachine(a);
    assert a.start == a.states[m.start];
    RecordRunIsRun(a, m.start, w);
  }

  /** The conditions of `Valid`, one by one. */
  lemma MachineValid(m: Machine)
    requires m.start < m.Size()
    requires forall f :: f in m.final ==> f < m.Size()
    requires |m.delta| == m.Size() && forall p :: 0 <= p < m.Size() ==> |m.delta[p]| == m.Width()
    requires forall p, s :: 0 <= p < m.Size() && 0 <= s < m.Width() ==> m.delta[p][s] < m.Size()
    requires Distinct(m.labels) && Distinct(m.alphabet)
    requires forall p :: 0 <= p < m.Size() ==> IsLabelChar(m.labels[p])
    ensures Valid(m)
  {
  }

  /** One-character state names without repetition give labels without
      repetition. */
  lemma LabelsDistinct(a: Automaton, labels: seq<char>)
    requires Loadable(a) && |labels| == |a.states|
    requires forall p :: 0 <= p < |labels| ==> labels[p] == a.states[p][0]
    ensures forall p :: 0 <= p < |labels| ==> [labels[p]] == a.states[p] && IsLabelChar(labels[p])
    ensures Distinct(labels)
  {
    assert forall p :: 0 <= p < |labels| ==> [labels[p]] == a.states[p];
    forall p, q | 0 <= p < q < |labels| ensures labels[p] != labels[q] {
      assert [labels[p]] == a.states[p] && [labels[q]] == a.states[q];
    }
  }

  /** The row of the initial state passes, so the alphabet has no repetition. */
  lemma AlphabetDistinct(a: Automaton)
    requires Loadable(a)
    ensures Distinct(a.alphabet)
  {
    assert a.start in RowOrigins(a);
    assert RowOk(a, a.rows[RowFor(a, a.start)]);
    RowCoversAlphabet(a, a.rows[RowFor(a, a.start)]);
  }
}
