/** The distinguishability matrix `matriz` of `main` (main.py:250-334): an
    n-by-n integer matrix over state positions, first filled with -1, then
    the base stage writes the lower triangle, then one derivation pass marks
    further pairs.  The array is tied to a value matrix `M` by `Represents`;
    each method is proved against a function on those values. */
module Table {
  import opened Dfa

  /** Cell values: never written, written and unmarked, marked distinguishable. */
  const Unset: int := -1
  const Unmarked: int := 0
  const Marked: int := 1

  predicate IsSquare(M: seq<seq<int>>, n: nat) {
    |M| == n && forall p :: 0 <= p < n ==> |M[p]| == n
  }

  /** The array `m` holds exactly the values of the square matrix `M`. */
  ghost predicate Represents(m: array2<int>, M: seq<seq<int>>)
    reads m
  {
    && IsSquare(M, |M|)
    && m.Length0 == |M| && m.Length1 == |M|
    && forall p, q :: 0 <= p < |M| && 0 <= q < |M| ==> m[p, q] == M[p][q]
  }

  // ---------------------------------------------------------------------
  // main.py:250: the matrix starts with -1 everywhere.

  function Blank(n: nat): (M: seq<seq<int>>)
    ensures IsSquare(M, n)
    ensures forall p, q :: 0 <= p < n && 0 <= q < n ==> M[p][q] == Unset
  {
    seq(n, p => seq(n, q => Unset))
  }

  method NewMatrix(n: nat) returns (m: array2<int>)
    ensures fresh(m) && Represents(m, Blank(n))
  {
    m := new int[n, n]((p, q) => Unset);
  }

  // ---------------------------------------------------------------------
  // main.py:261-281: the base stage.

  /** What the base stage leaves at [p][q]: only cells whose column comes
      before their row in the state list are written, with 1 when exactly
      one of the two states is final and 0 otherwise. */
  function BaseEntry(d: Machine, p: nat, q: nat): int {
    if q < p then (if (p in d.final) != (q in d.final) then Marked else Unmarked) else Unset
  }

  function BaseTable(d: Machine): (M: seq<seq<int>>)
    ensures IsSquare(M, d.Size())
    ensures forall p, q :: 0 <= p < d.Size() && 0 <= q < d.Size() ==> M[p][q] == BaseEntry(d, p, q)
  {
    seq(d.Size(), p requires 0 <= p => seq(d.Size(), q requires 0 <= q => BaseEntry(d, p, q)))
  }

  /** The nested loops of main.py:261-281; the inner loop stops at the
      diagonal (`break` at main.py:266-268). */
  method FillBase(d: Machine, m: array2<int>)
    requires Valid(d) && Represents(m, Blank(d.Size()))
    modifies m
    ensures Represents(m, BaseTable(d))
  {
    var n := d.Size();
    for i := 0 to n
      invariant forall p, q :: 0 <= p < n && 0 <= q < n ==>
        m[p, q] == if p < i then BaseEntry(d, p, q) else Unset
    {
      for j := 0 to n
        invariant j <= i
        invariant forall p, q :: 0 <= p < n && 0 <= q < n ==>
          m[p, q] == if p < i || (p == i && q < j) then BaseEntry(d, p, q) else Unset
      {
        if i == j {
          break;
        }
        if (i in d.final) != (j in d.final) {
          m[i, j] := Marked;
        } else {
          m[i, j] := Unmarked;
        }
      }
    }
  }

  // ---------------------------------------------------------------------
  // main.py:300-334: one derivation pass, in scan order, in place.

  /** Symbol t leads pair (i, j) to a pair whose cell `M[δ(i,t)][δ(j,t)]` is marked. */
  predicate Witness(d: Machine, M: seq<seq<int>>, i: nat, j: nat, t: nat)
    requires Valid(d) && IsSquare(M, d.Size()) && i < d.Size() && j < d.Size() && t < d.Width()
  {
    M[d.delta[i][t]][d.delta[j][t]] == Marked
  }

  /** One of the first `s` symbols is a witness for (i, j). */
  predicate HasWitness(d: Machine, M: seq<seq<int>>, i: nat, j: nat, s: nat)
    requires Valid(d) && IsSquare(M, d.Size()) && i < d.Size() && j < d.Size() && s <= d.Width()
  {
    exists t :: 0 <= t < s && Witness(d, M, i, j, t)
  }

  /** The handling of one pair (main.py:304-334) in the matrix as it stands
      when the pair is reached: a 1 is skipped, a 0 becomes 1 when some
      symbol has a witness, anything else is left alone.  Only the
      orientation `[δ(i,s)][δ(j,s)]` is read: the mirror test at
      main.py:326-334 follows two branches that both `continue`. */
  function Step(d: Machine, M: seq<seq<int>>, i: nat, j: nat): (R: seq<seq<int>>)
    requires Valid(d) && IsSquare(M, d.Size()) && i < d.Size() && j < d.Size()
    ensures IsSquare(R, d.Size())
  {
    if M[i][j] == Unmarked && HasWitness(d, M, i, j, d.Width()) then M[i := M[i][j := Marked]] else M
  }

  /** Pairs (i, 0), ..., (i, j-1) handled in order. */
  function RowPass(d: Machine, M: seq<seq<int>>, i: nat, j: nat): (R: seq<seq<int>>)
    requires Valid(d) && IsSquare(M, d.Size()) && j <= i < d.Size()
    ensures IsSquare(R, d.Size())
  {
    if j == 0 then M else Step(d, RowPass(d, M, i, j - 1), i, j - 1)
  }

  /** Rows 0, ..., i-1 handled in order: `Pass(d, M, d.Size())` is the whole pass. */
  function Pass(d: Machine, M: seq<seq<int>>, i: nat): (R: seq<seq<int>>)
    requires Valid(d) && IsSquare(M, d.Size()) && i <= d.Size()
    ensures IsSquare(R, d.Size())
  {
    if i == 0 then M else RowPass(d, Pass(d, M, i - 1), i - 1, i - 1)
  }

  /** The nested loops of main.py:300-334, updating the matrix in place. */
  method DerivePass(d: Machine, m: array2<int>, ghost M0: seq<seq<int>>)
    requires Valid(d) && |M0| == d.Size() && Represents(m, M0)
    modifies m
    ensures Represents(m, Pass(d, M0, d.Size()))
  {
    for i := 0 to d.Size()
      invariant Represents(m, Pass(d, M0, i))
    {
      DeriveRow(d, m, Pass(d, M0, i), i);
    }
  }

  /** Row i of the pass: the pairs (i, j) with j before i, in order (the
      source scans every j and breaks when j reaches i). */
  method DeriveRow(d: Machine, m: array2<int>, ghost M: seq<seq<int>>, i: nat)
    requires Valid(d) && IsSquare(M, d.Size()) && Represents(m, M) && i < d.Size()
    modifies m
    ensures Represents(m, RowPass(d, M, i, i))
  {
    for j := 0 to i
      invariant Represents(m, RowPass(d, M, i, j))
    {
      if m[i, j] == Marked {
        continue;
      }
      if m[i, j] == Unmarked {
        DeriveCell(d, m, RowPass(d, M, i, j), i, j);
      }
    }
  }

  /** The symbol loop of main.py:309-334 for an unmarked pair (i, j): the
      cell becomes 1 as soon as some symbol leads to a marked cell. */
  method DeriveCell(d: Machine, m: array2<int>, ghost S: seq<seq<int>>, i: nat, j: nat)
    requires Valid(d) && IsSquare(S, d.Size()) && Represents(m, S) && j < i < d.Size()
    requires S[i][j] == Unmarked
    modifies m
    ensures Represents(m, Step(d, S, i, j))
  {
    var n := d.Size();
    for s := 0 to d.Width()
      invariant forall p, q :: 0 <= p < n && 0 <= q < n ==>
        m[p, q] == if p == i && q == j then (if HasWitness(d, S, i, j, s) then Marked else Unmarked) else S[p][q]
    {
      var q1, q2 := d.delta[i][s], d.delta[j][s];
      assert m[q1, q2] == Marked <==> Witness(d, S, i, j, s) || (q1 == i && q2 == j && HasWitness(d, S, i, j, s));
      assert HasWitness(d, S, i, j, s + 1) <==> HasWitness(d, S, i, j, s) || Witness(d, S, i, j, s);
      if m[q1, q2] == Marked {
        m[i, j] := Marked;
      }
      // Otherwise the loop moves on: the test of m[q2, q1] written after
      // this point in the source is never reached.
    }
  }

  // ---------------------------------------------------------------------
  // What the pass does to the matrix.

  /** R differs from M only where a 0 of the lower triangle became 1. */
  ghost predicate OnlyMarks(M: seq<seq<int>>, R: seq<seq<int>>, n: nat)
    requires IsSquare(M, n) && IsSquare(R, n)
  {
    forall p, q :: 0 <= p < n && 0 <= q < n ==>
      R[p][q] == M[p][q] || (q < p && M[p][q] == Unmarked && R[p][q] == Marked)
  }

  lemma OnlyMarksTrans(A: seq<seq<int>>, B: seq<seq<int>>, C: seq<seq<int>>, n: nat)
    requires IsSquare(A, n) && IsSquare(B, n) && IsSquare(C, n)
    requires OnlyMarks(A, B, n) && OnlyMarks(B, C, n)
    ensures OnlyMarks(A, C, n)
  {
  }

  lemma {:induction false} RowPassOnlyMarks(d: Machine, M: seq<seq<int>>, i: nat, j: nat)
    requires Valid(d) && IsSquare(M, d.Size()) && j <= i < d.Size()
    ensures OnlyMarks(M, RowPass(d, M, i, j), d.Size())
  {
    if j > 0 {
      RowPassOnlyMarks(d, M, i, j - 1);
      var B := RowPass(d, M, i, j - 1);
      OnlyMarksTrans(M, B, Step(d, B, i, j - 1), d.Size());
    }
  }

  /** The pass only ever turns a 0 below the diagonal into a 1: it never
      writes a -1 cell or a 1 cell, so the marks only grow and the diagonal
      and upper triangle keep their values (main.py:300-321). */
  lemma {:induction false} PassOnlyMarks(d: Machine, M: seq<seq<int>>, i: nat)
    requires Valid(d) && IsSquare(M, d.Size()) && i <= d.Size()
    ensures OnlyMarks(M, Pass(d, M, i), d.Size())
  {
    if i > 0 {
      PassOnlyMarks(d, M, i - 1);
      var B := Pass(d, M, i - 1);
      RowPassOnlyMarks(d, B, i - 1, i - 1);
      OnlyMarksTrans(M, B, RowPass(d, B, i - 1, i - 1), d.Size());
    }
  }

  /** Every marked cell names a pair of states some word tells apart. */
  ghost predicate SoundMarks(d: Machine, M: seq<seq<int>>)
    requires Valid(d) && IsSquare(M, d.Size())
  {
    forall p, q :: 0 <= p < d.Size() && 0 <= q < d.Size() && M[p][q] == Marked ==> Distinguishable(d, p, q)
  }

  /** The base marks are sound: the empty word tells the pair apart; and an
      unmarked written cell joins two states that agree on finality. */
  lemma BaseSound(d: Machine)
    requires Valid(d)
    ensures SoundMarks(d, BaseTable(d))
    ensures forall p, q :: 0 <= q < p < d.Size() && BaseTable(d)[p][q] == Unmarked ==> (p in d.final <==> q in d.final)
  {
    forall p, q | 0 <= p < d.Size() && 0 <= q < d.Size() && BaseTable(d)[p][q] == Marked
      ensures Distinguishable(d, p, q)
    {
      var w: seq<nat> := [];
      assert IsWord(d, w) && Accepts(d, p, w) != Accepts(d, q, w);
    }
  }

  lemma {:induction false} StepSound(d: Machine, M: seq<seq<int>>, i: nat, j: nat)
    requires Valid(d) && IsSquare(M, d.Size()) && i < d.Size() && j < d.Size()
    requires SoundMarks(d, M)
    ensures SoundMarks(d, Step(d, M, i, j))
  {
    if M[i][j] == Unmarked && HasWitness(d, M, i, j, d.Width()) {
      var t :| 0 <= t < d.Width() && Witness(d, M, i, j, t);
      DistinguishableBack(d, i, j, t);
    }
  }

  lemma {:induction false} RowPassSound(d: Machine, M: seq<seq<int>>, i: nat, j: nat)
    requires Valid(d) && IsSquare(M, d.Size()) && j <= i < d.Size()
    requires SoundMarks(d, M)
    ensures SoundMarks(d, RowPass(d, M, i, j))
  {
    if j > 0 {
      RowPassSound(d, M, i, j - 1);
      StepSound(d, RowPass(d, M, i, j - 1), i, j - 1);
    }
  }

  /** A mark made by the pass is justified: a symbol leads the pair to a
      marked pair, so prefixing that pair's distinguishing word with the
      symbol distinguishes the pair itself. */
  lemma {:induction false} PassSound(d: Machine, M: seq<seq<int>>, i: nat)
    requires Valid(d) && IsSquare(M, d.Size()) && i <= d.Size()
    requires SoundMarks(d, M)
    ensures SoundMarks(d, Pass(d, M, i))
  {
    if i > 0 {
      PassSound(d, M, i - 1);
      RowPassSound(d, Pass(d, M, i - 1), i - 1, i - 1);
    }
  }

  /** The matrix after both stages: the diagonal and upper triangle hold -1,
      the lower triangle only 0 and 1, every 1 is a distinguishable pair and
      every 0 joins two states that agree on finality. */
  lemma DerivedTableShape(d: Machine)
    requires Valid(d)
    ensures var R := Pass(d, BaseTable(d), d.Size());
      && (forall p, q :: 0 <= p <= q < d.Size() ==> R[p][q] == Unset)
      && (forall p, q :: 0 <= q < p < d.Size() ==> R[p][q] == Unmarked || R[p][q] == Marked)
      && SoundMarks(d, R)
      && (forall p, q :: 0 <= q < p < d.Size() && R[p][q] == Unmarked ==> (p in d.final <==> q in d.final))
  {
    PassOnlyMarks(d, BaseTable(d), d.Size());
    BaseSound(d);
    PassSound(d, BaseTable(d), d.Size());
  }
}
