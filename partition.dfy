/** From the matrix to the composite states of the minimized automaton
    (main.py:346-401): collect the unmarked pairs, merge lists that share a
    state, append the states that occur in no pair as one more list, and pick
    the composites that are initial and final.  A composite is a list of
    state positions; where the source rebuilds a list from a Python set, its
    order is left open (`ListOf` chooses it). */
module Partition {
  import opened Basics
  import opened Dfa
  import opened Table

  /** Every state that occurs in some list of `L`. */
  function Members(L: seq<seq<nat>>): set<nat> {
    if L == [] then {} else Members(L[..|L| - 1]) + Elements(L[|L| - 1])
  }

  /** A state is a member exactly when some list holds it. */
  lemma {:induction false} MembersSpec(L: seq<seq<nat>>)
    ensures forall x :: x in Members(L) <==> exists t :: 0 <= t < |L| && x in L[t]
  {
    if L != [] {
      MembersSpec(L[..|L| - 1]);
      assert forall t :: 0 <= t < |L| - 1 ==> L[..|L| - 1][t] == L[t];
    }
  }

  lemma MembersAppend(L: seq<seq<nat>>, e: seq<nat>)
    ensures Members(L + [e]) == Members(L) + Elements(e)
  {
    assert (L + [e])[..|L|] == L;
  }

  /** The states 0, ..., n-1. */
  function AllStates(n: nat): (r: set<nat>)
    ensures forall x: nat :: x in r <==> x < n
  {
    if n == 0 then {} else AllStates(n - 1) + {n - 1}
  }

  // ---------------------------------------------------------------------
  // main.py:346-361: collecting the unmarked pairs.

  /** The pairs [i, q], q < j, whose cell is 0, in scan order. */
  function RowZeros(M: seq<seq<int>>, i: nat, j: nat): seq<seq<nat>>
    requires IsSquare(M, |M|) && j <= i < |M|
  {
    if j == 0 then []
    else RowZeros(M, i, j - 1) + (if M[i][j - 1] == Unmarked then [[i, j - 1]] else [])
  }

  /** `estadosAfdMin` after the collecting loops: the pairs [i, j], j before
      i, whose cell is 0, in the order the loops meet them. */
  function ZeroPairs(M: seq<seq<int>>, i: nat): seq<seq<nat>>
    requires IsSquare(M, |M|) && i <= |M|
  {
    if i == 0 then [] else ZeroPairs(M, i - 1) + RowZeros(M, i - 1, i - 1)
  }

  /** e is a pair [p, q], q before p, whose cell is 0. */
  predicate IsZeroPair(M: seq<seq<int>>, e: seq<nat>)
    requires IsSquare(M, |M|)
  {
    |e| == 2 && e[1] < e[0] < |M| && M[e[0]][e[1]] == Unmarked
  }

  lemma {:induction false} RowZerosSpec(M: seq<seq<int>>, i: nat, j: nat)
    requires IsSquare(M, |M|) && j <= i < |M|
    ensures forall t :: 0 <= t < |RowZeros(M, i, j)| ==>
      IsZeroPair(M, RowZeros(M, i, j)[t]) && RowZeros(M, i, j)[t][0] == i
    ensures forall q :: 0 <= q < j && M[i][q] == Unmarked ==> [i, q] in RowZeros(M, i, j)
  {
    if j > 0 {
      RowZerosSpec(M, i, j - 1);
    }
  }

  /** The collected list holds exactly the pairs [p, q] with q before p whose
      cell is 0 (main.py:350-359). */
  lemma {:induction false} ZeroPairsSpec(M: seq<seq<int>>, i: nat)
    requires IsSquare(M, |M|) && i <= |M|
    ensures forall t :: 0 <= t < |ZeroPairs(M, i)| ==>
      IsZeroPair(M, ZeroPairs(M, i)[t]) && ZeroPairs(M, i)[t][0] < i
    ensures forall p, q :: 0 <= q < p < i && M[p][q] == Unmarked ==> [p, q] in ZeroPairs(M, i)
  {
    if i > 0 {
      ZeroPairsSpec(M, i - 1);
      RowZerosSpec(M, i - 1, i - 1);
    }
  }

  /** The collecting loops of main.py:346-361: the unmarked pairs in scan
      order and the set `estadosUtilizados` of the states they use.  (The
      source seeds that set with "" and removes it afterwards; no state label
      is empty here, so the seed leaves no trace.) */
  method CollectPairs(m: array2<int>, ghost M: seq<seq<int>>) returns (pairs: seq<seq<nat>>, used: set<nat>)
    requires Represents(m, M)
    ensures pairs == ZeroPairs(M, |M|)
    ensures used == Members(pairs)
  {
    pairs, used := [], {};
    for i := 0 to m.Length0
      invariant pairs == ZeroPairs(M, i) && used == Members(pairs)
    {
      pairs, used := CollectRow(m, M, i, pairs, used);
    }
  }

  /** The inner loop of main.py:350-359 for row i: the pairs [i, j], j
      before i, whose cell is 0, appended in order. */
  method CollectRow(m: array2<int>, ghost M: seq<seq<int>>, i: nat, pairs0: seq<seq<nat>>, used0: set<nat>)
    returns (pairs: seq<seq<nat>>, used: set<nat>)
    requires Represents(m, M) && i < |M|
    requires pairs0 == ZeroPairs(M, i) && used0 == Members(pairs0)
    ensures pairs == ZeroPairs(M, i + 1) && used == Members(pairs)
  {
    pairs, used := pairs0, used0;
    // The source scans every j and breaks when j reaches i.
    for j := 0 to i
      invariant pairs == pairs0 + RowZeros(M, i, j) && used == Members(pairs)
    {
      var cell := m[i, j];
      assert cell == M[i][j];
      CollectStep(M, i, j, pairs0, pairs, used);
      if cell == Unmarked {
        pairs := pairs + [[i, j]];
        used := used + {i, j};
      }
    }
  }

  /** One step of the inner collecting loop: appending [i, j] when its cell
      is 0 extends the scan by one cell and adds i and j to the used states. */
  lemma CollectStep(M: seq<seq<int>>, i: nat, j: nat, pairs0: seq<seq<nat>>, pairs: seq<seq<nat>>, used: set<nat>)
    requires IsSquare(M, |M|) && j < i < |M|
    requires pairs == pairs0 + RowZeros(M, i, j) && used == Members(pairs)
    ensures M[i][j] == Unmarked ==>
      pairs + [[i, j]] == pairs0 + RowZeros(M, i, j + 1) && used + {i, j} == Members(pairs + [[i, j]])
    ensures M[i][j] != Unmarked ==> pairs == pairs0 + RowZeros(M, i, j + 1)
  {
    MembersAppend(pairs, [i, j]);
    assert Elements([i, j]) == {i, j};
  }

  // ---------------------------------------------------------------------
  // main.py:367-377: merging lists that share a state.

  /** `list(set(...))`: the elements of `s` in an order the source leaves open. */
  method ListOf(s: set<nat>) returns (l: seq<nat>)
    ensures Elements(l) == s && Distinct(l)
  {
    l := [];
    var rest := s;
    while rest != {}
      invariant Elements(l) + rest == s && Elements(l) !! rest && Distinct(l)
      decreases rest
    {
      var x :| x in rest;
      l := l + [x];
      rest := rest - {x};
    }
  }

  /** The list a lies inside some list of B. */
  ghost predicate Covered(a: seq<nat>, B: seq<seq<nat>>) {
    exists v :: 0 <= v < |B| && Elements(a) <= Elements(B[v])
  }

  /** Every list of A lies inside some list of B. */
  ghost predicate Covers(A: seq<seq<nat>>, B: seq<seq<nat>>) {
    forall t {:trigger Covered(A[t], B)} :: 0 <= t < |A| ==> Covered(A[t], B)
  }

  /** All members of every list are related by R. */
  ghost predicate Cliques(L: seq<seq<nat>>, R: (nat, nat) -> bool) {
    forall t, x, y :: 0 <= t < |L| && x in L[t] && y in L[t] ==> R(x, y)
  }

  ghost predicate IsEquivalence(R: (nat, nat) -> bool) {
    && (forall x, y :: R(x, y) ==> R(y, x))
    && (forall x, y, z :: R(x, y) && R(y, z) ==> R(x, z))
  }

  /** No list is empty. */
  predicate NoneEmpty(L: seq<seq<nat>>) {
    forall t :: 0 <= t < |L| ==> L[t] != []
  }

  /** L with list i replaced by u and list j removed. */
  function MergedAt(L: seq<seq<nat>>, i: nat, j: nat, u: seq<nat>): (r: seq<seq<nat>>)
    requires i < j < |L|
    ensures |r| == |L| - 1
  {
    L[i := u][..j] + L[i := u][j + 1..]
  }

  lemma MergedAtIndex(L: seq<seq<nat>>, i: nat, j: nat, u: seq<nat>)
    requires i < j < |L|
    ensures MergedAt(L, i, j, u)[i] == u
    ensures forall v :: 0 <= v < j && v != i ==> MergedAt(L, i, j, u)[v] == L[v]
    ensures forall v {:trigger MergedAt(L, i, j, u)[v]} :: j <= v < |L| - 1 ==> MergedAt(L, i, j, u)[v] == L[v + 1]
  {
  }

  lemma CoversRefl(A: seq<seq<nat>>)
    ensures Covers(A, A)
  {
    forall t | 0 <= t < |A| ensures Covered(A[t], A) {
      assert Elements(A[t]) <= Elements(A[t]);
    }
  }

  lemma CoversTrans(A: seq<seq<nat>>, B: seq<seq<nat>>, C: seq<seq<nat>>)
    requires Covers(A, B) && Covers(B, C)
    ensures Covers(A, C)
  {
    forall t | 0 <= t < |A| ensures Covered(A[t], C) {
      assert Covered(A[t], B);
      var v :| 0 <= v < |B| && Elements(A[t]) <= Elements(B[v]);
      assert Covered(B[v], C);
      var w :| 0 <= w < |C| && Elements(B[v]) <= Elements(C[w]);
      assert Elements(A[t]) <= Elements(C[w]);
    }
  }

  /** Where list v of L went in the merged lists. */
  function NewPlace(i: nat, j: nat, v: nat): nat
    requires i < j
  {
    if v == j then i else if v < j then v else v - 1
  }

  /** A merge (main.py:371-374) neither adds nor loses a state. */
  lemma {:induction false} MergeKeepsMembers(L: seq<seq<nat>>, i: nat, j: nat, u: seq<nat>)
    requires i < j < |L|
    requires Elements(u) == Elements(L[i]) + Elements(L[j])
    ensures Members(MergedAt(L, i, j, u)) == Members(L)
  {
    MergedAtIndex(L, i, j, u);
    var r := MergedAt(L, i, j, u);
    MembersSpec(L);
    MembersSpec(r);
    forall x | x in Members(L) ensures x in Members(r) {
      var t :| 0 <= t < |L| && x in L[t];
      var v := NewPlace(i, j, t);
      assert x in r[v];
    }
    forall x | x in Members(r) ensures x in Members(L) {
      var v :| 0 <= v < |r| && x in r[v];
      if v == i {
        assert x in L[i] || x in L[j];
      } else if v < j {
        assert x in L[v];
      } else {
        assert x in L[v + 1];
      }
    }
  }

  /** After a merge every old list lies inside some new list. */
  lemma {:induction false} MergeCovers(L: seq<seq<nat>>, i: nat, j: nat, u: seq<nat>)
    requires i < j < |L|
    requires Elements(u) == Elements(L[i]) + Elements(L[j])
    ensures Covers(L, MergedAt(L, i, j, u))
  {
    MergedAtIndex(L, i, j, u);
    var r := MergedAt(L, i, j, u);
    MembersSpec(L);
    MembersSpec(r);
    forall t | 0 <= t < |L| ensures Covered(L[t], r) {
      var v := NewPlace(i, j, t);
      assert Elements(L[t]) <= Elements(r[v]);
    }
  }

  /** A merged list is non-empty when its parts are. */
  lemma {:induction false} MergeKeepsNonEmpty(L: seq<seq<nat>>, i: nat, j: nat, u: seq<nat>)
    requires i < j < |L|
    requires Elements(u) == Elements(L[i]) + Elements(L[j])
    requires NoneEmpty(L)
    ensures NoneEmpty(MergedAt(L, i, j, u))
  {
    MergedAtIndex(L, i, j, u);
    assert L[i][0] in Elements(u);
  }

  /** Two cliques of an equivalence that share a state form one clique. */
  lemma {:induction false} MergeKeepsCliques(L: seq<seq<nat>>, i: nat, j: nat, u: seq<nat>, R: (nat, nat) -> bool)
    requires i < j < |L|
    requires Elements(u) == Elements(L[i]) + Elements(L[j])
    requires Elements(L[i]) * Elements(L[j]) != {}
    requires IsEquivalence(R) && Cliques(L, R)
    ensures Cliques(MergedAt(L, i, j, u), R)
  {
    MergedAtIndex(L, i, j, u);
    var r := MergedAt(L, i, j, u);
    MembersSpec(L);
    MembersSpec(r);
    var z :| z in Elements(L[i]) * Elements(L[j]);
    forall x, y | x in u && y in u ensures R(x, y) {
      assert R(x, z) by { assert x in L[i] || x in L[j]; }
      assert R(z, y) by { assert y in L[i] || y in L[j]; }
    }
  }

  /** What merging keeps, relative to the lists r0 it started from. */
  ghost predicate Merging(r0: seq<seq<nat>>, r: seq<seq<nat>>, R: (nat, nat) -> bool) {
    && Members(r) == Members(r0)
    && Covers(r0, r)
    && (NoneEmpty(r0) ==> NoneEmpty(r))
    && (IsEquivalence(R) && Cliques(r0, R) ==> Cliques(r, R))
  }

  lemma MergingRefl(r0: seq<seq<nat>>, R: (nat, nat) -> bool)
    ensures Merging(r0, r0, R)
  {
    CoversRefl(r0);
  }

  lemma MergingTrans(r0: seq<seq<nat>>, r1: seq<seq<nat>>, r2: seq<seq<nat>>, R: (nat, nat) -> bool)
    requires Merging(r0, r1, R) && Merging(r1, r2, R)
    ensures Merging(r0, r2, R)
  {
    CoversTrans(r0, r1, r2);
  }

  /** One merge of list j into list i keeps everything `Merging` tracks. */
  lemma MergingStep(r0: seq<seq<nat>>, r: seq<seq<nat>>, i: nat, j: nat, u: seq<nat>, R: (nat, nat) -> bool)
    requires i < j < |r|
    requires Elements(u) == Elements(r[i]) + Elements(r[j])
    requires Elements(r[i]) * Elements(r[j]) != {}
    requires Merging(r0, r, R)
    ensures Merging(r0, MergedAt(r, i, j, u), R)
  {
    MergeKeepsMembers(r, i, j, u);
    MergeCovers(r, i, j, u);
    CoversTrans(r0, r, MergedAt(r, i, j, u));
    if NoneEmpty(r0) {
      MergeKeepsNonEmpty(r, i, j, u);
    }
    if IsEquivalence(R) && Cliques(r0, R) {
      MergeKeepsCliques(r, i, j, u, R);
    }
  }

  // ---------------------------------------------------------------------
  // The scan order of the collected pairs.  Merging them in that order
  // leaves disjoint lists when the pairs are those of an equivalence: the
  // first pair met of each class is [c1, c0] with c0 the least state of the
  // class, and for every other pair [p, q] of the class, [p, c0] comes
  // earlier, so by the time [p, q] is reached list i already holds p or c0.

  /** Pair e comes before pair f in the order the collecting loops meet
      cells: by row, then by column. */
  predicate Before(e: seq<nat>, f: seq<nat>) {
    |e| == 2 && |f| == 2 && (e[0] < f[0] || (e[0] == f[0] && e[1] < f[1]))
  }

  lemma {:induction false} RowZerosOrder(M: seq<seq<int>>, i: nat, j: nat)
    requires IsSquare(M, |M|) && j <= i < |M|
    ensures forall t :: 0 <= t < |RowZeros(M, i, j)| ==> |RowZeros(M, i, j)[t]| == 2 && RowZeros(M, i, j)[t][1] < j
    ensures forall a, b :: 0 <= a < b < |RowZeros(M, i, j)| ==> RowZeros(M, i, j)[a][1] < RowZeros(M, i, j)[b][1]
  {
    if j > 0 {
      RowZerosOrder(M, i, j - 1);
    }
  }

  /** The collected pairs are in strictly increasing scan order. */
  lemma {:induction false} ZeroPairsSorted(M: seq<seq<int>>, i: nat)
    requires IsSquare(M, |M|) && i <= |M|
    ensures forall a, b :: 0 <= a < b < |ZeroPairs(M, i)| ==> Before(ZeroPairs(M, i)[a], ZeroPairs(M, i)[b])
  {
    if i > 0 {
      ZeroPairsSorted(M, i - 1);
      ZeroPairsSpec(M, i - 1);
      RowZerosSpec(M, i - 1, i - 1);
      RowZerosOrder(M, i - 1, i - 1);
      var A, B := ZeroPairs(M, i - 1), RowZeros(M, i - 1, i - 1);
      assert ZeroPairs(M, i) == A + B;
      forall a, b | 0 <= a < b < |A + B| ensures Before((A + B)[a], (A + B)[b]) {
        if b < |A| {
          assert (A + B)[a] == A[a] && (A + B)[b] == A[b];
        } else if a < |A| {
          assert (A + B)[a] == A[a] && (A + B)[b] == B[b - |A|];
        } else {
          assert (A + B)[a] == B[a - |A|] && (A + B)[b] == B[b - |A|];
        }
      }
    }
  }

  /** p and q have the same key.  Quantifiers over pairs of states hang on
      this term, so that they are instantiated only where a proof names it. */
  predicate Alike(K: nat -> nat, p: nat, q: nat) {
    K(p) == K(q)
  }

  /** `lists` holds, in scan order, exactly the pairs [p, q], q before p,
      of states in the same class, where K maps each state to a key of its
      class. */
  ghost predicate PairsOf(lists: seq<seq<nat>>, K: nat -> nat) {
    && (forall a :: 0 <= a < |lists| ==> |lists[a]| == 2 && lists[a][1] < lists[a][0] && K(lists[a][0]) == K(lists[a][1]))
    && (forall a, b :: 0 <= a < b < |lists| ==> Before(lists[a], lists[b]))
    && (forall p: nat, q: nat {:trigger Alike(K, p, q)} :: q < p && Alike(K, p, q) ==> [p, q] in lists)
  }

  /** In a list sorted by scan order, positions follow the order of their
      pairs, and no pair occurs twice. */
  lemma IndexOrder(lists: seq<seq<nat>>, a: nat, b: nat)
    requires forall x, y :: 0 <= x < y < |lists| ==> Before(lists[x], lists[y])
    requires a < |lists| && b < |lists|
    ensures Before(lists[a], lists[b]) ==> a < b
    ensures lists[a] == lists[b] ==> a == b
  {
    if a < b {
      assert Before(lists[a], lists[b]);
    }
    if b < a {
      assert Before(lists[b], lists[a]);
    }
  }

  /** From position `from` on, r is a subsequence of `lists`: r[v] is
      lists[idx[v]], with idx increasing. */
  ghost predicate InOrder(lists: seq<seq<nat>>, r: seq<seq<nat>>, idx: seq<nat>, from: nat) {
    && |idx| == |r|
    && (forall v :: from <= v < |r| ==> idx[v] < |lists| && r[v] == lists[idx[v]])
    && (forall v, w :: from <= v < w < |r| ==> idx[v] < idx[w])
  }

  /** Each list before position i shares no state with any list after it. */
  ghost predicate SettledBefore(r: seq<seq<nat>>, i: nat) {
    forall k, v :: 0 <= k < i && k < v < |r| ==> Elements(r[k]) !! Elements(r[v])
  }

  /** No two lists share a state. */
  predicate Disjoint(L: seq<seq<nat>>) {
    forall k, v :: 0 <= k < v < |L| ==> Elements(L[k]) !! Elements(L[v])
  }

  /** The lists at positions lo .. hi-1 hold no state of class k. */
  ghost predicate Outside(r: seq<seq<nat>>, lo: nat, hi: nat, K: nat -> nat, k: nat) {
    forall v, x :: lo <= v < hi && v < |r| && x in r[v] ==> K(x) != k
  }

  /** What the merge loops keep at the start of round i when they run on the
      pairs of an equivalence in scan order: the lists from i on are still
      untouched pairs, in order, and each list before i is disjoint from all
      lists after it. */
  ghost predicate Scanned(lists: seq<seq<nat>>, K: nat -> nat, r: seq<seq<nat>>, idx: seq<nat>, i: nat) {
    && PairsOf(lists, K)
    && Covers(lists, r)
    && InOrder(lists, r, idx, i)
    && SettledBefore(r, i)
  }

  /** What the inner loop keeps during round i, up to position j: list i
      holds c, the least state of its class, and only states of that class;
      the lists between i and j hold none of them. */
  ghost predicate InRound(lists: seq<seq<nat>>, K: nat -> nat, r: seq<seq<nat>>, idx: seq<nat>, i: nat, j: nat, c: nat) {
    && PairsOf(lists, K)
    && Covers(lists, r)
    && i < j <= |r|
    && InOrder(lists, r, idx, i + 1)
    && SettledBefore(r, i)
    && c in r[i] && (forall x :: x in r[i] ==> K(x) == K(c))
    && (forall y: nat {:trigger Alike(K, y, c)} :: Alike(K, y, c) ==> c <= y)
    && Outside(r, i + 1, j, K, K(c))
  }

  /** A list after position `from` that holds both states of the pair
      lists[a] is that very pair, at its own place in the order. */
  lemma SamePair(lists: seq<seq<nat>>, K: nat -> nat, r: seq<seq<nat>>, idx: seq<nat>, from: nat, a: nat, v: nat)
    requires PairsOf(lists, K) && InOrder(lists, r, idx, from)
    requires a < |lists| && from <= v < |r|
    requires lists[a][0] in r[v] && lists[a][1] in r[v]
    ensures idx[v] == a
  {
    var e, f := lists[a], lists[idx[v]];
    assert e == [e[0], e[1]] && f == [f[0], f[1]];
    assert e[0] == f[0] && e[1] == f[1];
    IndexOrder(lists, a, idx[v]);
  }

  /** At the start of round i, list i is a pair [p, c] where c is the least
      state of its class: a pair [p, y] with y below c would come earlier in
      the order, and wherever it went it would contradict the earlier
      rounds. */
  lemma ClassStart(lists: seq<seq<nat>>, K: nat -> nat, r: seq<seq<nat>>, idx: seq<nat>, i: nat)
    requires Scanned(lists, K, r, idx, i) && i < |r|
    ensures |r[i]| == 2 && r[i][1] in r[i]
    ensures forall x :: x in r[i] ==> K(x) == K(r[i][1])
    ensures forall y: nat {:trigger Alike(K, y, r[i][1])} :: Alike(K, y, r[i][1]) ==> r[i][1] <= y
  {
    assert r[i] == lists[idx[i]];
    var p0, q0 := r[i][0], r[i][1];
    assert r[i] == [p0, q0];
    forall y: nat | Alike(K, y, q0) ensures q0 <= y {
      LeastFirst(lists, K, r, idx, i, y);
    }
  }

  /** The case analysis behind ClassStart: a pair [p, y] of list i's class
      with y below its second state would have to sit somewhere. */
  lemma LeastFirst(lists: seq<seq<nat>>, K: nat -> nat, r: seq<seq<nat>>, idx: seq<nat>, i: nat, y: nat)
    requires Scanned(lists, K, r, idx, i) && i < |r|
    requires r[i] == lists[idx[i]] && |r[i]| == 2 && Alike(K, y, r[i][1])
    ensures r[i][1] <= y
  {
    var p0, q0 := r[i][0], r[i][1];
    if q0 <= y {
      return;
    }
    assert Alike(K, p0, y);
    assert [p0, y] in lists;
    var a: nat :| a < |lists| && lists[a] == [p0, y];
    IndexOrder(lists, a, idx[i]);
    assert Covered(lists[a], r);
    var v: nat :| v < |r| && Elements(lists[a]) <= Elements(r[v]);
    assert p0 in Elements(lists[a]) && y in Elements(lists[a]);
    if v < i {
      NotShared(r, i, v, p0);
      assert false;
    } else if v == i {
      InPair(r[i], y);
      assert false;
    } else {
      SamePair(lists, K, r, idx, i, a, v);
      OrderAt(lists, r, idx, i, i, v);
      assert false;
    }
  }

  /** The states of a pair are its two entries. */
  lemma InPair(e: seq<nat>, x: nat)
    requires |e| == 2 && x in Elements(e)
    ensures x == e[0] || x == e[1]
  {
  }

  /** A state of a list before i is in no list from i on. */
  lemma NotShared(r: seq<seq<nat>>, i: nat, k: nat, x: nat)
    requires SettledBefore(r, i) && k < i < |r| && x in Elements(r[k])
    ensures x !in r[i]
  {
    assert Elements(r[k]) !! Elements(r[i]);
  }

  lemma OrderAt(lists: seq<seq<nat>>, r: seq<seq<nat>>, idx: seq<nat>, from: nat, v: nat, w: nat)
    requires InOrder(lists, r, idx, from) && from <= v < w < |r|
    ensures idx[v] < idx[w]
  {
  }

  /** During round i, a later list j holding a state of c's class meets
      list i: its pair [p, q] is [p, c] itself, or [p, c] came earlier and
      went into list i. */
  lemma SameClassMeets(lists: seq<seq<nat>>, K: nat -> nat, r: seq<seq<nat>>, idx: seq<nat>,
                       i: nat, j: nat, c: nat, x: nat)
    requires InRound(lists, K, r, idx, i, j, c) && j < |r|
    requires x in r[j] && K(x) == K(c)
    ensures !(Elements(r[i]) !! Elements(r[j]))
  {
    assert r[j] == lists[idx[j]];
    var p, q, next: nat := r[j][0], r[j][1], i + 1;
    InPair(r[j], x);
    if q == c {
      assert c in Elements(r[i]) && c in Elements(r[j]);
    } else {
      assert Alike(K, q, c) && Alike(K, p, c);
      assert [p, c] in lists;
      var a: nat :| a < |lists| && lists[a] == [p, c];
      IndexOrder(lists, a, idx[j]);
      assert Covered(lists[a], r);
      var v: nat :| v < |r| && Elements(lists[a]) <= Elements(r[v]);
      assert p in Elements(lists[a]) && c in Elements(lists[a]);
      if v < i {
        NotShared(r, i, v, c);
        assert false;
      } else if v == i {
        assert p in Elements(r[i]) && p in Elements(r[j]);
      } else if v < j {
        assert false;
      } else if v == j {
        InPair(r[j], c);
        assert false;
      } else {
        SamePair(lists, K, r, idx, next, a, v);
        OrderAt(lists, r, idx, next, j, v);
        assert false;
      }
    }
  }

  /** Merging list j into list i keeps the round's invariant. */
  lemma MergeInRound(lists: seq<seq<nat>>, K: nat -> nat, r: seq<seq<nat>>, idx: seq<nat>,
                     i: nat, j: nat, c: nat, u: seq<nat>)
    requires InRound(lists, K, r, idx, i, j, c) && j < |r|
    requires Elements(r[i]) * Elements(r[j]) != {}
    requires Elements(u) == Elements(r[i]) + Elements(r[j])
    ensures InRound(lists, K, MergedAt(r, i, j, u), idx[..j] + idx[j + 1..], i, j, c)
  {
    var r', idx' := MergedAt(r, i, j, u), idx[..j] + idx[j + 1..];
    assert Covers(lists, r') by {
      MergeCovers(r, i, j, u);
      CoversTrans(lists, r, r');
    }
    assert r'[i] == u by {
      MergedAtIndex(r, i, j, u);
    }
    assert c in u && forall x :: x in u ==> K(x) == K(c) by {
      MergedClass(lists, K, r, idx, i, j, c, u);
    }
    assert InOrder(lists, r', idx', i + 1) by {
      InOrderDrop(lists, r, idx, i + 1, i, j, u);
    }
    assert SettledBefore(r', i) by {
      SettledDrop(r, i, j, u);
    }
    assert Outside(r', i + 1, j, K, K(c)) by {
      OutsideDrop(r, i, j, u, K, K(c));
    }
    InRoundAfterMerge(lists, K, r, idx, i, j, c, u);
  }

  /** The merged list i holds c and only states of c's class, since list j
      shares a state with list i. */
  lemma MergedClass(lists: seq<seq<nat>>, K: nat -> nat, r: seq<seq<nat>>, idx: seq<nat>,
                    i: nat, j: nat, c: nat, u: seq<nat>)
    requires InRound(lists, K, r, idx, i, j, c) && j < |r|
    requires Elements(r[i]) * Elements(r[j]) != {}
    requires Elements(u) == Elements(r[i]) + Elements(r[j])
    ensures c in u && forall x :: x in u ==> K(x) == K(c)
  {
    assert r[j] == lists[idx[j]];
    var z :| z in Elements(r[i]) * Elements(r[j]);
    assert c in Elements(r[i]);
    forall x | x in u ensures K(x) == K(c) {
      assert x in Elements(u);
      if x in r[j] {
        InPair(r[j], x);
        InPair(r[j], z);
      }
    }
  }

  /** Removing list j keeps the lists from `from` on a subsequence of
      `lists`. */
  lemma InOrderDrop(lists: seq<seq<nat>>, r: seq<seq<nat>>, idx: seq<nat>, from: nat, i: nat, j: nat, u: seq<nat>)
    requires InOrder(lists, r, idx, from) && i < from <= j < |r|
    ensures InOrder(lists, MergedAt(r, i, j, u), idx[..j] + idx[j + 1..], from)
  {
    var r', idx' := MergedAt(r, i, j, u), idx[..j] + idx[j + 1..];
    MergedAtIndex(r, i, j, u);
    forall v | from <= v < |r'| ensures idx'[v] < |lists| && r'[v] == lists[idx'[v]] {
      if v >= j {
        assert idx'[v] == idx[v + 1];
      } else {
        assert idx'[v] == idx[v];
      }
    }
    forall v, w | from <= v < w < |r'| ensures idx'[v] < idx'[w] {
      var v1 := if v >= j then v + 1 else v;
      var w1 := if w >= j then w + 1 else w;
      assert idx'[v] == idx[v1] && idx'[w] == idx[w1];
    }
  }

  /** Merging list j into list i keeps every list before i disjoint from
      the lists after it. */
  lemma SettledDrop(r: seq<seq<nat>>, i: nat, j: nat, u: seq<nat>)
    requires SettledBefore(r, i) && i < j < |r|
    requires Elements(u) == Elements(r[i]) + Elements(r[j])
    ensures SettledBefore(MergedAt(r, i, j, u), i)
  {
    var r' := MergedAt(r, i, j, u);
    MergedAtIndex(r, i, j, u);
    forall k, v | 0 <= k < i && k < v < |r'| ensures Elements(r'[k]) !! Elements(r'[v]) {
      if v == i {
        assert Elements(r[k]) !! Elements(r[i]) && Elements(r[k]) !! Elements(r[j]);
      } else if v >= j {
        assert r'[v] == r[v + 1];
      } else {
        assert r'[v] == r[v];
      }
    }
  }

  /** The lists strictly between i and j are untouched by the merge. */
  lemma OutsideDrop(r: seq<seq<nat>>, i: nat, j: nat, u: seq<nat>, K: nat -> nat, k: nat)
    requires Outside(r, i + 1, j, K, k) && i < j < |r|
    ensures Outside(MergedAt(r, i, j, u), i + 1, j, K, k)
  {
    MergedAtIndex(r, i, j, u);
  }

  lemma InRoundAfterMerge(lists: seq<seq<nat>>, K: nat -> nat, r: seq<seq<nat>>, idx: seq<nat>,
                          i: nat, j: nat, c: nat, u: seq<nat>)
    requires InRound(lists, K, r, idx, i, j, c) && j < |r|
    requires Covers(lists, MergedAt(r, i, j, u)) && MergedAt(r, i, j, u)[i] == u
    requires c in u && forall x :: x in u ==> K(x) == K(c)
    requires InOrder(lists, MergedAt(r, i, j, u), idx[..j] + idx[j + 1..], i + 1)
    requires SettledBefore(MergedAt(r, i, j, u), i)
    requires Outside(MergedAt(r, i, j, u), i + 1, j, K, K(c))
    ensures InRound(lists, K, MergedAt(r, i, j, u), idx[..j] + idx[j + 1..], i, j, c)
  {
  }

  /** Passing over a list j that shares no state with list i keeps the
      round's invariant one position further: j holds no state of c's class. */
  lemma SkipInRound(lists: seq<seq<nat>>, K: nat -> nat, r: seq<seq<nat>>, idx: seq<nat>,
                    i: nat, j: nat, c: nat)
    requires InRound(lists, K, r, idx, i, j, c) && j < |r|
    requires Elements(r[i]) !! Elements(r[j])
    ensures InRound(lists, K, r, idx, i, j + 1, c)
  {
    OtherClass(lists, K, r, idx, i, j, c);
    OutsideGrows(r, i + 1, j, K, K(c));
    InRoundGrows(lists, K, r, idx, i, j, c);
  }

  lemma OutsideGrows(r: seq<seq<nat>>, lo: nat, j: nat, K: nat -> nat, k: nat)
    requires Outside(r, lo, j, K, k) && lo <= j < |r|
    requires forall x :: x in r[j] ==> K(x) != k
    ensures Outside(r, lo, j + 1, K, k)
  {
  }

  lemma InRoundGrows(lists: seq<seq<nat>>, K: nat -> nat, r: seq<seq<nat>>, idx: seq<nat>,
                     i: nat, j: nat, c: nat)
    requires InRound(lists, K, r, idx, i, j, c) && j < |r|
    requires Outside(r, i + 1, j + 1, K, K(c))
    ensures InRound(lists, K, r, idx, i, j + 1, c)
  {
  }

  lemma OtherClass(lists: seq<seq<nat>>, K: nat -> nat, r: seq<seq<nat>>, idx: seq<nat>,
                    i: nat, j: nat, c: nat)
    requires InRound(lists, K, r, idx, i, j, c) && j < |r|
    requires Elements(r[i]) !! Elements(r[j])
    ensures forall x :: x in r[j] ==> K(x) != K(c)
  {
    forall x | x in r[j] ensures K(x) != K(c) {
      if K(x) == K(c) {
        SameClassMeets(lists, K, r, idx, i, j, c, x);
      }
    }
  }

  lemma NoCommonState(A: set<nat>, B: set<nat>)
    requires A * B == {}
    ensures A !! B
  {
    forall x | x in A ensures x !in B {
      assert x !in A * B;
    }
  }

  /** At the end of round i, list i is disjoint from every later list. */
  lemma RoundDone(lists: seq<seq<nat>>, K: nat -> nat, r: seq<seq<nat>>, idx: seq<nat>, i: nat, c: nat)
    requires InRound(lists, K, r, idx, i, |r|, c)
    ensures Scanned(lists, K, r, idx, i + 1)
  {
    forall k, v | 0 <= k < i + 1 && k < v < |r| ensures Elements(r[k]) !! Elements(r[v]) {
      if k == i {
        forall x | x in Elements(r[i]) ensures x !in Elements(r[v]) {
          assert K(x) == K(c);
        }
      }
    }
  }

  /** The inner `while` loop of main.py:370-376: every later list that
      shares a state with list i is merged into it and removed; list i stays
      at position i.  On the pairs of the classes of K in scan order, list i
      ends up disjoint from every later list. */
  method MergeInto(r0: seq<seq<nat>>, i: nat, ghost R: (nat, nat) -> bool, ghost K: nat -> nat,
                   ghost lists: seq<seq<nat>>, ghost idx0: seq<nat>)
    returns (r: seq<seq<nat>>, ghost merges: nat, ghost idx: seq<nat>)
    requires i < |r0|
    ensures i < |r| && |r| + merges == |r0|
    ensures Merging(r0, r, R)
    ensures Scanned(lists, K, r0, idx0, i) ==> Scanned(lists, K, r, idx, i + 1)
  {
    r, merges, idx := r0, 0, idx0;
    MergingRefl(r0, R);
    ghost var scanned := Scanned(lists, K, r0, idx0, i);
    ghost var c: nat := 0;
    if scanned {
      ClassStart(lists, K, r0, idx0, i);
      c := r0[i][1];
    }
    var j := i + 1;
    while j < |r|
      invariant i + 1 <= j <= |r| && |r| + merges == |r0|
      invariant Merging(r0, r, R)
      invariant scanned ==> InRound(lists, K, r, idx, i, j, c)
      decreases |r| - j
    {
      if Elements(r[i]) * Elements(r[j]) != {} {
        var u := ListOf(Elements(r[i]) + Elements(r[j]));
        MergingStep(r0, r, i, j, u, R);
        if scanned {
          MergeInRound(lists, K, r, idx, i, j, c, u);
          idx := idx[..j] + idx[j + 1..];
        }
        r := MergedAt(r, i, j, u);
        merges := merges + 1;
      } else {
        if scanned {
          NoCommonState(Elements(r[i]), Elements(r[j]));
          SkipInRound(lists, K, r, idx, i, j, c);
        }
        j := j + 1;
      }
    }
    if scanned {
      RoundDone(lists, K, r, idx, i, c);
    }
  }

  /** The outer `while` loop of main.py:367-377.  Each merge removes exactly
      one list (`merges` counts them); the states listed are unchanged; every
      input list ends up inside some output list.  If the input lists are
      cliques of an equivalence R, so are the output lists.  Lists already
      passed over are not revisited, so in general the result need not be
      disjoint; it is when the input is the pairs of the classes of a key K,
      in scan order. */
  method MergeIntersecting(lists: seq<seq<nat>>, ghost R: (nat, nat) -> bool, ghost K: nat -> nat)
    returns (r: seq<seq<nat>>, ghost merges: nat)
    ensures |r| + merges == |lists|
    ensures Merging(lists, r, R)
    ensures PairsOf(lists, K) ==> Disjoint(r)
  {
    r, merges := lists, 0;
    MergingRefl(lists, R);
    ghost var idx: seq<nat> := seq(|lists|, k => k);
    CoversRefl(lists);
    var i := 0;
    while i < |r| - 1
      invariant i <= |r| && |r| + merges == |lists|
      invariant Merging(lists, r, R)
      invariant PairsOf(lists, K) ==> Scanned(lists, K, r, idx, i)
      decreases |r| - i
    {
      var r', k, idx' := MergeInto(r, i, R, K, lists, idx);
      MergingTrans(lists, r, r', R);
      r, merges, idx := r', merges + k, idx';
      i := i + 1;
    }
  }

  // ---------------------------------------------------------------------
  // main.py:380-384: the isolated states, appended as ONE list.

  /** `estadosAfdMin.append(list(set(afd['estados']) - estadosUtilizados))`:
      every state not in `used` goes into one final list, which is empty when
      there is no such state. */
  method AppendIsolated(n: nat, used: set<nat>, lists: seq<seq<nat>>) returns (comps: seq<seq<nat>>)
    ensures |comps| == |lists| + 1 && comps[..|lists|] == lists
    ensures Elements(comps[|lists|]) == AllStates(n) - used && Distinct(comps[|lists|])
    ensures Members(comps) == Members(lists) + (AllStates(n) - used)
  {
    var isolated := ListOf(AllStates(n) - used);
    comps := lists + [isolated];
    assert comps[|lists|] == isolated;
    assert comps[..|comps| - 1] == lists;
  }

  /** Stages main.py:346-384 in sequence: the composite states.  Every
      state lies in some composite and composites hold only states; the
      composites before the last hold exactly the states of the unmarked
      pairs, and each unmarked pair lies inside one of them; the last
      composite is exactly the set of states in no unmarked pair; the others
      are non-empty, and if R is an equivalence relating every unmarked pair,
      each of them lies within one class of R. */
  method Composites(m: array2<int>, ghost M: seq<seq<int>>, ghost R: (nat, nat) -> bool) returns (comps: seq<seq<nat>>)
    requires Represents(m, M)
    ensures |comps| > 0
    ensures Members(comps) == AllStates(|M|)
    ensures Members(comps[..|comps| - 1]) == Members(ZeroPairs(M, |M|))
    ensures Covers(ZeroPairs(M, |M|), comps[..|comps| - 1])
    ensures Elements(comps[|comps| - 1]) == AllStates(|M|) - Members(ZeroPairs(M, |M|))
    ensures NoneEmpty(comps[..|comps| - 1])
    ensures IsEquivalence(R) && RelatesZeroPairs(M, R) ==> Cliques(comps[..|comps| - 1], R)
  {
    var pairs, used := CollectPairs(m, M);
    ghost var merges;
    var merged;
    // The key only matters for the corrected table (Corrected.CorrectedComposites).
    merged, merges := MergeIntersecting(pairs, R, (x: nat) => x);
    comps := AppendIsolated(m.Length0, used, merged);
    PairsInRange(M);
    PairsNonEmpty(M);
    if IsEquivalence(R) && RelatesZeroPairs(M, R) {
      PairsCliques(M, R);
    }
  }

  /** R relates the two states of every unmarked pair. */
  ghost predicate RelatesZeroPairs(M: seq<seq<int>>, R: (nat, nat) -> bool)
    requires IsSquare(M, |M|)
  {
    forall p, q :: 0 <= q < p < |M| && M[p][q] == Unmarked ==> R(p, q)
  }

  lemma PairShape(M: seq<seq<int>>, e: seq<nat>)
    requires IsSquare(M, |M|) && IsZeroPair(M, e)
    ensures e == [e[0], e[1]] && Elements(e) == {e[0], e[1]}
  {
  }

  /** The collected pairs name states only. */
  lemma PairsInRange(M: seq<seq<int>>)
    requires IsSquare(M, |M|)
    ensures Members(ZeroPairs(M, |M|)) <= AllStates(|M|)
  {
    var pairs := ZeroPairs(M, |M|);
    ZeroPairsSpec(M, |M|);
    MembersSpec(pairs);
    forall x | x in Members(pairs) ensures x < |M| {
      var t :| 0 <= t < |pairs| && x in pairs[t];
      PairShape(M, pairs[t]);
    }
  }

  lemma PairsNonEmpty(M: seq<seq<int>>)
    requires IsSquare(M, |M|)
    ensures NoneEmpty(ZeroPairs(M, |M|))
  {
    ZeroPairsSpec(M, |M|);
  }

  /** Each collected pair is a clique of an equivalence relating unmarked pairs. */
  lemma PairsCliques(M: seq<seq<int>>, R: (nat, nat) -> bool)
    requires IsSquare(M, |M|) && IsEquivalence(R) && RelatesZeroPairs(M, R)
    ensures Cliques(ZeroPairs(M, |M|), R)
  {
    var pairs := ZeroPairs(M, |M|);
    ZeroPairsSpec(M, |M|);
    forall t, x, y | 0 <= t < |pairs| && x in pairs[t] && y in pairs[t] ensures R(x, y) {
      var p, q := pairs[t][0], pairs[t][1];
      PairShape(M, pairs[t]);
      assert R(p, q) && R(q, p);
    }
  }

  // ---------------------------------------------------------------------
  // main.py:386-401: the initial and the final composites.

  /** The composites that contain state x, in their order. */
  function Containing(comps: seq<seq<nat>>, x: nat): (r: seq<seq<nat>>)
    ensures |r| <= |comps|
    ensures forall c :: c in r <==> c in comps && x in c
  {
    if comps == [] then []
    else
      var last := comps[|comps| - 1];
      var r := Containing(comps[..|comps| - 1], x) + (if x in last then [last] else []);
      assert forall c :: c in comps <==> c in comps[..|comps| - 1] || c == last;
      r
  }

  /** A state in no composite is in none of them. */
  lemma {:induction false} ContainingNone(comps: seq<seq<nat>>, x: nat)
    requires x !in Members(comps)
    ensures Containing(comps, x) == []
  {
    if comps != [] {
      var init, last := comps[..|comps| - 1], comps[|comps| - 1];
      assert comps == init + [last];
      MembersAppend(init, last);
      ContainingNone(init, x);
    }
  }

  /** When no two composites share a state, each listed state lies in
      exactly one composite; for the initial state, the loop of
      main.py:389-393 then selects a single composite. */
  lemma {:induction false} ContainingOne(comps: seq<seq<nat>>, x: nat)
    requires Disjoint(comps) && x in Members(comps)
    ensures |Containing(comps, x)| == 1
  {
    var init, last := comps[..|comps| - 1], comps[|comps| - 1];
    assert comps == init + [last];
    MembersAppend(init, last);
    MembersSpec(init);
    if x in last {
      forall t | 0 <= t < |init| ensures x !in init[t] {
        assert Elements(comps[t]) !! Elements(comps[|comps| - 1]);
      }
      ContainingNone(init, x);
    } else {
      ContainingOne(init, x);
    }
  }

  /** The composites that share a state with `final`, in their order. */
  function Accepting(comps: seq<seq<nat>>, final: set<nat>): (r: seq<seq<nat>>)
    ensures |r| <= |comps|
    ensures forall c :: c in r <==> c in comps && Elements(c) * final != {}
  {
    if comps == [] then []
    else
      var last := comps[|comps| - 1];
      var r := Accepting(comps[..|comps| - 1], final) + (if Elements(last) * final != {} then [last] else []);
      assert forall c :: c in comps <==> c in comps[..|comps| - 1] || c == last;
      r
  }

  /** The loop of main.py:389-401: a composite is initial when it holds the
      original start state and final when it shares a state with the original
      final states; both lists keep the order of `comps`. */
  method SelectStartAndFinals(start: nat, final: set<nat>, comps: seq<seq<nat>>) returns (startComps: seq<seq<nat>>, finalComps: seq<seq<nat>>)
    ensures startComps == Containing(comps, start)
    ensures finalComps == Accepting(comps, final)
  {
    startComps, finalComps := [], [];
    for k := 0 to |comps|
      invariant startComps == Containing(comps[..k], start)
      invariant finalComps == Accepting(comps[..k], final)
    {
      assert comps[..k + 1][..k] == comps[..k];
      if start in comps[k] {
        startComps := startComps + [comps[k]];
      }
      if Elements(comps[k]) * final != {} {
        finalComps := finalComps + [comps[k]];
      }
    }
    assert comps[..|comps|] == comps;
  }

  /** Every state lies in some composite, so some composite is initial. */
  lemma StartIsCovered(comps: seq<seq<nat>>, n: nat, start: nat)
    requires Members(comps) == AllStates(n) && start < n
    ensures Containing(comps, start) != []
  {
    MembersSpec(comps);
    assert start in Members(comps);
    var t :| 0 <= t < |comps| && start in comps[t];
    assert comps[t] in Containing(comps, start);
  }
}
