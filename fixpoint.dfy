/** The table-filling stage as the method it implements is meant to work:
    a pair is marked when some symbol leads it to a marked pair, whichever
    of the two cells of that pair holds the mark, and passes are repeated
    until one of them marks nothing new.  At that point the unmarked cells
    below the diagonal are exactly the pairs of equivalent states.

    The single pass of main.py:300-334 reads only the cell
    `[δ(i,s)][δ(j,s)]`, which is a -1 whenever that pair lies above the
    diagonal, and never repeats; `SinglePassMissesPair` shows an automaton
    where this leaves two distinguishable states unmarked. */
module Fixpoint {
  import opened Basics
  import opened Dfa
  import opened Table

  // ---------------------------------------------------------------------
  // The single pass as written.

  /** States F (final), X and Y over one symbol: F→F, X→Y, Y→F. */
  function SkipExample(): Machine {
    Machine("FXY", ["a"], 1, {0}, [[0], [2], [0]])
  }

  /** On `SkipExample` the pass leaves (Y, X) unmarked: the pair it reaches,
      (F, Y), is read at `[0][2]`, above the diagonal.  Yet "a" is accepted
      from Y and not from X. */
  lemma SinglePassMissesPair()
    ensures Valid(SkipExample())
    ensures Pass(SkipExample(), BaseTable(SkipExample()), 3)[2][1] == Unmarked
    ensures Distinguishable(SkipExample(), 2, 1)
  {
    var d := SkipExample();
    SkipExampleValid();
    SkipExamplePass();
    var w: seq<nat> := [0];
    assert Run(d, 2, w) == 0 && Run(d, 1, w) == 2;
    assert IsWord(d, w) && Accepts(d, 2, w) != Accepts(d, 1, w);
  }

  lemma SkipExampleValid()
    ensures Valid(SkipExample())
  {
    var d := SkipExample();
    assert d.labels[0] == 'F' && d.labels[1] == 'X' && d.labels[2] == 'Y';
  }

  /** The pass changes nothing on `SkipExample`. */
  lemma SkipExamplePass()
    requires Valid(SkipExample())
    ensures Pass(SkipExample(), BaseTable(SkipExample()), 3) == BaseTable(SkipExample())
    ensures BaseTable(SkipExample())[2][1] == Unmarked
  {
    var d := SkipExample();
    var B := BaseTable(d);
    assert B[1][0] == Marked && B[2][0] == Marked && B[2][1] == Unmarked && B[0][2] == Unset;
    calc {
      Pass(d, B, 3);
      RowPass(d, Pass(d, B, 2), 2, 2);
      { assert Pass(d, B, 1) == RowPass(d, B, 0, 0) == B;
        assert Pass(d, B, 2) == RowPass(d, B, 1, 1) == Step(d, B, 1, 0) == B; }
      RowPass(d, B, 2, 2);
      Step(d, RowPass(d, B, 2, 1), 2, 1);
      { assert RowPass(d, B, 2, 1) == Step(d, B, 2, 0) == B; }
      Step(d, B, 2, 1);
      { assert !Witness(d, B, 2, 1, 0); }
      B;
    }
  }

  // ---------------------------------------------------------------------
  // The invariant of the corrected table.

  /** The pair {p, q} is marked, in whichever orientation is below the diagonal. */
  predicate MarkedPair(M: seq<seq<int>>, p: nat, q: nat)
    requires IsSquare(M, |M|) && p < |M| && q < |M|
  {
    M[p][q] == Marked || M[q][p] == Marked
  }

  /** -1 on and above the diagonal, 0 or 1 below it. */
  ghost predicate Shaped(d: Machine, M: seq<seq<int>>) {
    && IsSquare(M, d.Size())
    && (forall p, q :: 0 <= p <= q < d.Size() ==> M[p][q] == Unset)
    && (forall p, q :: 0 <= q < p < d.Size() ==> M[p][q] == Unmarked || M[p][q] == Marked)
  }

  /** What every table of the corrected stage satisfies: its shape, sound
      marks, and unmarked pairs that agree on finality. */
  ghost predicate Inv(d: Machine, M: seq<seq<int>>)
    requires Valid(d)
  {
    && Shaped(d, M)
    && SoundMarks(d, M)
    && (forall p, q :: 0 <= q < p < d.Size() && M[p][q] == Unmarked ==> (p in d.final <==> q in d.final))
  }

  /** No symbol leads (i, j) to a marked pair. */
  predicate Stable(d: Machine, M: seq<seq<int>>, i: nat, j: nat)
    requires Valid(d) && IsSquare(M, d.Size()) && i < d.Size() && j < d.Size()
  {
    forall s :: 0 <= s < d.Width() ==> !MarkedPair(M, d.delta[i][s], d.delta[j][s])
  }

  /** Nothing left to mark: every unmarked pair is stable. */
  ghost predicate Closed(d: Machine, M: seq<seq<int>>)
    requires Valid(d) && IsSquare(M, d.Size())
  {
    forall p, q :: 0 <= q < p < d.Size() && M[p][q] == Unmarked ==> Stable(d, M, p, q)
  }

  /** The cells still unmarked below the diagonal; each productive round
      removes at least one. */
  ghost function UnmarkedCells(M: seq<seq<int>>): set<(nat, nat)>
    requires IsSquare(M, |M|)
  {
    set p: nat, q: nat | q < p < |M| && M[p][q] == Unmarked :: (p, q)
  }

  lemma BaseInv(d: Machine)
    requires Valid(d)
    ensures Inv(d, BaseTable(d))
  {
    BaseSound(d);
  }

  /** Marking a distinguishable pair keeps the invariant. */
  lemma MarkKeepsInv(d: Machine, M: seq<seq<int>>, i: nat, j: nat)
    requires Valid(d) && Inv(d, M) && j < i < d.Size() && Distinguishable(d, i, j)
    ensures Inv(d, M[i := M[i][j := Marked]])
  {
    var R := M[i := M[i][j := Marked]];
    forall p, q | 0 <= p < d.Size() && 0 <= q < d.Size()
      ensures R[p][q] == if p == i && q == j then Marked else M[p][q]
    {
    }
    assert Shaped(d, R);
    forall p, q | 0 <= p < d.Size() && 0 <= q < d.Size() && R[p][q] == Marked
      ensures Distinguishable(d, p, q)
    {
      if p != i || q != j {
        assert M[p][q] == Marked;
      }
    }
  }

  /** Two states whose pair is not marked, or one state, accept the same
      words when the table is closed: by induction on the word, since a
      stable pair moves to a pair that is again not marked. */
  lemma {:induction false} AgreeAlong(d: Machine, M: seq<seq<int>>, p: nat, q: nat, w: seq<nat>)
    requires Valid(d) && Inv(d, M) && Closed(d, M)
    requires p < d.Size() && q < d.Size() && IsWord(d, w)
    requires !MarkedPair(M, p, q)
    ensures Accepts(d, p, w) == Accepts(d, q, w)
    decreases |w|
  {
    if w != [] {
      var p', q' := d.delta[p][w[0]], d.delta[q][w[0]];
      if p != q {
        var hi, lo := if p < q then q else p, if p < q then p else q;
        assert M[hi][lo] == Unmarked;
        assert Stable(d, M, hi, lo);
        assert !MarkedPair(M, d.delta[hi][w[0]], d.delta[lo][w[0]]);
      }
      assert !MarkedPair(M, p', q');
      AgreeAlong(d, M, p', q', w[1..]);
    } else if p != q {
      var hi, lo := if p < q then q else p, if p < q then p else q;
      assert M[hi][lo] == Unmarked;
    }
  }

  /** A closed table decides equivalence: below the diagonal a cell is 0
      exactly when its two states accept the same words, and 1 exactly when
      some word tells them apart. */
  lemma ClosedDecidesEquivalence(d: Machine, M: seq<seq<int>>)
    requires Valid(d) && Inv(d, M) && Closed(d, M)
    ensures forall p, q :: 0 <= q < p < d.Size() ==> (M[p][q] == Unmarked <==> Equivalent(d, p, q))
    ensures forall p, q :: 0 <= q < p < d.Size() ==> (M[p][q] == Marked <==> Distinguishable(d, p, q))
  {
    forall p, q | 0 <= q < p < d.Size()
      ensures M[p][q] == Unmarked <==> Equivalent(d, p, q)
    {
      if M[p][q] == Unmarked {
        forall w | IsWord(d, w)
          ensures Accepts(d, p, w) == Accepts(d, q, w)
        {
          AgreeAlong(d, M, p, q, w);
        }
      } else {
        EquivalentIffNotDistinguishable(d, p, q);
      }
    }
    forall p, q | 0 <= q < p < d.Size()
      ensures M[p][q] == Marked <==> Distinguishable(d, p, q)
    {
      EquivalentIffNotDistinguishable(d, p, q);
    }
  }

  // ---------------------------------------------------------------------
  // The corrected stage, in place.

  /** The handling of an unmarked pair (i, j): it becomes 1 when some
      symbol leads it to a marked pair. */
  method RefineCell(d: Machine, m: array2<int>, ghost M: seq<seq<int>>, i: nat, j: nat)
    returns (marked: bool, ghost R: seq<seq<int>>)
    requires Valid(d) && Inv(d, M) && Represents(m, M) && j < i < d.Size()
    requires M[i][j] == Unmarked
    modifies m
    ensures Represents(m, R) && Inv(d, R)
    ensures marked ==> R == M[i := M[i][j := Marked]]
    ensures !marked ==> R == M && Stable(d, M, i, j)
  {
    ghost var t;
    marked, t := ScanSymbols(d, m, M, i, j);
    if marked {
      SuccessorMarked(d, M, i, j, t);
      MarkKeepsInv(d, M, i, j);
      R := M[i := M[i][j := Marked]];
    } else {
      R := M;
    }
  }

  /** The symbol loop for (i, j), reading both orientations of the
      successor pair; t is a symbol that found a mark. */
  method ScanSymbols(d: Machine, m: array2<int>, ghost M: seq<seq<int>>, i: nat, j: nat)
    returns (marked: bool, ghost t: nat)
    requires Valid(d) && Represents(m, M) && |M| == d.Size() && j < i < d.Size()
    modifies m
    ensures marked ==> Represents(m, M[i := M[i][j := Marked]])
    ensures marked ==> t < d.Width() && MarkedPair(M, d.delta[i][t], d.delta[j][t])
    ensures !marked ==> Represents(m, M) && Stable(d, M, i, j)
  {
    marked, t := false, 0;
    for s := 0 to d.Width()
      invariant marked ==> Represents(m, M[i := M[i][j := Marked]])
      invariant marked ==> t < d.Width() && MarkedPair(M, d.delta[i][t], d.delta[j][t])
      invariant !marked ==> Represents(m, M) && forall u :: 0 <= u < s ==> !MarkedPair(M, d.delta[i][u], d.delta[j][u])
    {
      var q1, q2 := d.delta[i][s], d.delta[j][s];
      var hit := m[q1, q2] == Marked || m[q2, q1] == Marked;
      // Once the cell holds 1, writing 1 again changes nothing.
      if hit && !marked {
        SetCell(m, M, i, j, Marked);
        marked, t := true, s;
      }
    }
  }

  /** Writes one cell of the matrix. */
  method SetCell(m: array2<int>, ghost M: seq<seq<int>>, i: nat, j: nat, v: int)
    requires Represents(m, M) && i < |M| && j < |M|
    modifies m
    ensures Represents(m, M[i := M[i][j := v]])
  {
    m[i, j] := v;
  }

  /** A symbol leading (i, j) to a marked pair makes (i, j) distinguishable. */
  lemma SuccessorMarked(d: Machine, M: seq<seq<int>>, i: nat, j: nat, s: nat)
    requires Valid(d) && Inv(d, M) && i < d.Size() && j < d.Size() && s < d.Width()
    requires MarkedPair(M, d.delta[i][s], d.delta[j][s])
    ensures Distinguishable(d, i, j)
  {
    var q1, q2 := d.delta[i][s], d.delta[j][s];
    if M[q2][q1] == Marked {
      assert Distinguishable(d, q2, q1);
      var w :| IsWord(d, w) && Accepts(d, q2, w) != Accepts(d, q1, w);
    }
    DistinguishableBack(d, i, j, s);
  }

  /** Row i of one round: the pairs (i, j) with j before i. */
  method RefineRow(d: Machine, m: array2<int>, ghost M0: seq<seq<int>>, ghost M1: seq<seq<int>>, i: nat, changed0: bool)
    returns (changed: bool, ghost M: seq<seq<int>>)
    requires Valid(d) && Inv(d, M0) && Inv(d, M1) && Represents(m, M1) && i < d.Size()
    requires OnlyMarks(M0, M1, d.Size())
    requires changed0 ==> UnmarkedCells(M1) < UnmarkedCells(M0)
    requires !changed0 ==> M1 == M0 && StableBefore(d, M0, i, 0)
    modifies m
    ensures Represents(m, M) && Inv(d, M) && OnlyMarks(M0, M, d.Size())
    ensures changed ==> UnmarkedCells(M) < UnmarkedCells(M0)
    ensures !changed ==> M == M0 && StableBefore(d, M0, i + 1, 0)
  {
    changed, M := changed0, M1;
    for j := 0 to i
      invariant Represents(m, M) && Inv(d, M) && OnlyMarks(M0, M, d.Size())
      invariant changed ==> UnmarkedCells(M) < UnmarkedCells(M0)
      invariant !changed ==> M == M0 && StableBefore(d, M0, i, j)
    {
      if m[i, j] == Unmarked {
        var marked;
        ghost var before := M;
        marked, M := RefineCell(d, m, M, i, j);
        if marked {
          MarkShrinks(M0, before, i, j);
          changed := true;
        } else if !changed {
          StableNext(d, M0, i, j);
        }
      } else if !changed {
        StableNext(d, M0, i, j);
      }
    }
    if !changed {
      StableRowDone(d, M0, i);
    }
  }

  /** The unmarked pairs before (i, j) in scan order are stable. */
  ghost predicate StableBefore(d: Machine, M: seq<seq<int>>, i: nat, j: nat)
    requires Valid(d) && IsSquare(M, d.Size())
  {
    forall p, q :: 0 <= q < p < d.Size() && (p < i || (p == i && q < j)) && M[p][q] == Unmarked ==> Stable(d, M, p, q)
  }

  lemma StableNext(d: Machine, M: seq<seq<int>>, i: nat, j: nat)
    requires Valid(d) && IsSquare(M, d.Size()) && j < i < d.Size()
    requires StableBefore(d, M, i, j) && (M[i][j] == Unmarked ==> Stable(d, M, i, j))
    ensures StableBefore(d, M, i, j + 1)
  {
  }

  lemma StableRowDone(d: Machine, M: seq<seq<int>>, i: nat)
    requires Valid(d) && IsSquare(M, d.Size()) && i < d.Size()
    requires StableBefore(d, M, i, i)
    ensures StableBefore(d, M, i + 1, 0)
  {
  }

  /** Marking an unmarked cell below the diagonal removes it from the
      unmarked cells and touches no other cell. */
  lemma MarkShrinks(M0: seq<seq<int>>, M: seq<seq<int>>, i: nat, j: nat)
    requires IsSquare(M0, |M0|) && IsSquare(M, |M0|) && j < i < |M0|
    requires OnlyMarks(M0, M, |M0|) && M[i][j] == Unmarked
    ensures OnlyMarks(M0, M[i := M[i][j := Marked]], |M0|)
    ensures UnmarkedCells(M[i := M[i][j := Marked]]) < UnmarkedCells(M0)
  {
    var R := M[i := M[i][j := Marked]];
    assert (i, j) in UnmarkedCells(M0) - UnmarkedCells(R);
  }

  /** One round over every pair below the diagonal, in scan order.  A round
      that marks nothing leaves a closed table. */
  method RefineRound(d: Machine, m: array2<int>, ghost M0: seq<seq<int>>)
    returns (changed: bool, ghost M: seq<seq<int>>)
    requires Valid(d) && Inv(d, M0) && Represents(m, M0)
    modifies m
    ensures Represents(m, M) && Inv(d, M)
    ensures changed ==> UnmarkedCells(M) < UnmarkedCells(M0)
    ensures !changed ==> M == M0 && Closed(d, M0)
  {
    changed, M := false, M0;
    for i := 0 to d.Size()
      invariant Represents(m, M) && Inv(d, M) && OnlyMarks(M0, M, d.Size())
      invariant changed ==> UnmarkedCells(M) < UnmarkedCells(M0)
      invariant !changed ==> M == M0 && StableBefore(d, M0, i, 0)
    {
      changed, M := RefineRow(d, m, M0, M, i, changed);
    }
  }

  /** Rounds repeated until one marks nothing; every round but the last
      removes an unmarked cell, so the loop ends. */
  method Refine(d: Machine, m: array2<int>, ghost M0: seq<seq<int>>) returns (ghost M: seq<seq<int>>)
    requires Valid(d) && Inv(d, M0) && Represents(m, M0)
    modifies m
    ensures Represents(m, M) && Inv(d, M) && Closed(d, M)
  {
    var changed := true;
    M := M0;
    while changed
      invariant Represents(m, M) && Inv(d, M)
      invariant !changed ==> Closed(d, M)
      decreases UnmarkedCells(M), changed
    {
      changed, M := RefineRound(d, m, M);
    }
  }

  /** The corrected table: the base stage, then rounds until nothing
      changes.  Below the diagonal, 0 means equivalent and 1 means
      distinguishable. */
  method EquivalenceTable(d: Machine) returns (m: array2<int>, ghost M: seq<seq<int>>)
    requires Valid(d)
    ensures fresh(m) && Represents(m, M) && Inv(d, M) && Closed(d, M)
    ensures forall p, q :: 0 <= q < p < d.Size() ==> (m[p, q] == Unmarked <==> Equivalent(d, p, q))
  {
    m := NewMatrix(d.Size());
    FillBase(d, m);
    BaseInv(d);
    M := Refine(d, m, BaseTable(d));
    ClosedDecidesEquivalence(d, M);
  }
}
