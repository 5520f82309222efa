/** The automaton as the minimizer sees it: state p is the p-th entry of the
    state list `afd['estados']`, symbol s the s-th entry of `afd['alfa']`, and
    the transition dictionary has become a total table `delta[p][s]`.
    Language semantics (runs, acceptance, equivalence) are defined here too;
    the source never computes them, they state what the table-filling
    method is meant to decide. */
module Dfa {
  import opened Basics

  /** `labels[p]` is the one-character name of state p. */
  datatype Machine = Machine(
    labels: seq<char>,
    alphabet: seq<string>,
    start: nat,
    final: set<nat>,
    delta: seq<seq<nat>>)
  {
    function Size(): nat { |labels| }
    function Width(): nat { |alphabet| }
  }

  /** A state label can be told apart from the `", "` separator of composite names. */
  predicate IsLabelChar(c: char) {
    c != ',' && c != ' '
  }

  /** Well-formed: a total, deterministic table over declared states, with
      distinct one-character labels and distinct symbols. */
  predicate Valid(m: Machine) {
    && m.start < m.Size()
    && (forall f :: f in m.final ==> f < m.Size())
    && |m.delta| == m.Size()
    && (forall p :: 0 <= p < m.Size() ==> |m.delta[p]| == m.Width())
    && (forall p, s :: 0 <= p < m.Size() && 0 <= s < m.Width() ==> m.delta[p][s] < m.Size())
    && Distinct(m.labels)
    && (forall p :: 0 <= p < m.Size() ==> IsLabelChar(m.labels[p]))
    && Distinct(m.alphabet)
  }

  /** A word: a sequence of symbol positions. */
  predicate IsWord(m: Machine, w: seq<nat>) {
    forall i :: 0 <= i < |w| ==> w[i] < m.Width()
  }

  /** The state reached from q by reading w. */
  function Run(m: Machine, q: nat, w: seq<nat>): (r: nat)
    requires Valid(m) && q < m.Size() && IsWord(m, w)
    ensures r < m.Size()
    decreases |w|
  {
    if w == [] then q else Run(m, m.delta[q][w[0]], w[1..])
  }

  predicate Accepts(m: Machine, q: nat, w: seq<nat>)
    requires Valid(m) && q < m.Size() && IsWord(m, w)
  {
    Run(m, q, w) in m.final
  }

  /** Some word is accepted from one of p, q and rejected from the other. */
  ghost predicate Distinguishable(m: Machine, p: nat, q: nat)
    requires Valid(m) && p < m.Size() && q < m.Size()
  {
    exists w :: IsWord(m, w) && Accepts(m, p, w) != Accepts(m, q, w)
  }

  /** p and q accept exactly the same words (Myhill-Nerode equivalence). */
  ghost predicate Equivalent(m: Machine, p: nat, q: nat)
    requires Valid(m) && p < m.Size() && q < m.Size()
  {
    forall w :: IsWord(m, w) ==> Accepts(m, p, w) == Accepts(m, q, w)
  }

  /** Reading one symbol first: a word distinguishing the successors, prefixed
      by that symbol, distinguishes the states themselves. */
  lemma {:induction false} DistinguishableBack(m: Machine, p: nat, q: nat, s: nat)
    requires Valid(m) && p < m.Size() && q < m.Size() && s < m.Width()
    requires Distinguishable(m, m.delta[p][s], m.delta[q][s])
    ensures Distinguishable(m, p, q)
  {
    var w :| IsWord(m, w) && Accepts(m, m.delta[p][s], w) != Accepts(m, m.delta[q][s], w);
    var sw := [s] + w;
    assert sw[1..] == w;
    assert IsWord(m, sw);
    assert Accepts(m, p, sw) != Accepts(m, q, sw);
  }

  /** Equivalence is a congruence: equivalent states move to equivalent states. */
  lemma {:induction false} EquivalentForward(m: Machine, p: nat, q: nat, s: nat)
    requires Valid(m) && p < m.Size() && q < m.Size() && s < m.Width()
    requires Equivalent(m, p, q)
    ensures Equivalent(m, m.delta[p][s], m.delta[q][s])
  {
    forall w | IsWord(m, w)
      ensures Accepts(m, m.delta[p][s], w) == Accepts(m, m.delta[q][s], w)
    {
      var sw := [s] + w;
      assert sw[1..] == w;
      assert IsWord(m, sw);
      assert Accepts(m, p, sw) == Accepts(m, q, sw);
    }
  }

  /** Equivalent states agree on every word, so they are not distinguishable,
      and the other way round. */
  lemma EquivalentIffNotDistinguishable(m: Machine, p: nat, q: nat)
    requires Valid(m) && p < m.Size() && q < m.Size()
    ensures Equivalent(m, p, q) <==> !Distinguishable(m, p, q)
  {
  }

  lemma EquivalentTransitive(m: Machine, p: nat, q: nat, r: nat)
    requires Valid(m) && p < m.Size() && q < m.Size() && r < m.Size()
    requires Equivalent(m, p, q) && Equivalent(m, q, r)
    ensures Equivalent(m, p, r)
  {
  }
}
