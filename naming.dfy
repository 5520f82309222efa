/** Names of composite states (main.py:404-421).  A composite's name is the
    labels of its members joined by ", ", built as the source builds it: each
    label followed by ", ", then the last two characters cut off. */
module Naming {
  import opened Basics
  import opened Dfa

  /** Every member of `comp` is one of the n states. */
  predicate InRange(comp: seq<nat>, n: nat) {
    forall k :: 0 <= k < |comp| ==> comp[k] < n
  }

  /** The labels of the members of `comp`, in order. */
  function LabelsOf(labels: seq<char>, comp: seq<nat>): (r: seq<char>)
    requires InRange(comp, |labels|)
    ensures |r| == |comp| && forall k :: 0 <= k < |comp| ==> r[k] == labels[comp[k]]
  {
    seq(|comp|, k requires 0 <= k < |comp| => labels[comp[k]])
  }

  /** The name of a composite: its member labels separated by ", ". */
  function Joined(labels: seq<char>, comp: seq<nat>): string
    requires InRange(comp, |labels|)
  {
    if |comp| == 0 then ""
    else if |comp| == 1 then [labels[comp[0]]]
    else [labels[comp[0]]] + ", " + Joined(labels, comp[1..])
  }

  /** What the accumulating loop holds: each label followed by ", ". */
  function Spelled(labels: seq<char>, comp: seq<nat>): (r: string)
    requires InRange(comp, |labels|)
    ensures |r| == 3 * |comp|
  {
    if comp == [] then "" else Spelled(labels, comp[..|comp| - 1]) + [labels[comp[|comp| - 1]]] + ", "
  }

  lemma {:induction false} SpelledAppend(labels: seq<char>, a: seq<nat>, b: seq<nat>)
    requires InRange(a, |labels|) && InRange(b, |labels|)
    ensures InRange(a + b, |labels|)
    ensures Spelled(labels, a + b) == Spelled(labels, a) + Spelled(labels, b)
    decreases |b|
  {
    if b != [] {
      var b' := b[..|b| - 1];
      assert (a + b)[..|a + b| - 1] == a + b';
      SpelledAppend(labels, a, b');
    } else {
      assert a + b == a;
    }
  }

  /** Cutting the trailing ", " off the accumulated string gives the name. */
  lemma {:induction false} SpelledIsJoined(labels: seq<char>, comp: seq<nat>)
    requires InRange(comp, |labels|) && comp != []
    ensures Spelled(labels, comp) == Joined(labels, comp) + ", "
    decreases |comp|
  {
    if |comp| == 1 {
      assert comp[..0] == [];
    } else {
      var rest := comp[1..];
      SpelledIsJoined(labels, rest);
      SpelledAppend(labels, [comp[0]], rest);
      assert [comp[0]] + rest == comp;
      assert [comp[0]][..0] == [];
    }
  }

  /** The loop of main.py:406-408 for one composite. */
  method JoinName(labels: seq<char>, comp: seq<nat>) returns (name: string)
    requires InRange(comp, |labels|)
    ensures name == Joined(labels, comp)
  {
    var s := "";
    for k := 0 to |comp|
      invariant s == Spelled(labels, comp[..k])
    {
      assert comp[..k + 1][..k] == comp[..k];
      s := s + [labels[comp[k]]] + ", ";
    }
    assert comp[..|comp|] == comp;
    if comp != [] {
      SpelledIsJoined(labels, comp);
    }
    // `string[:-2]`: on the empty string this is the empty string again.
    name := if |s| >= 2 then s[..|s| - 2] else "";
  }

  /** Every composite's name, in order (main.py:404-408; the loop of
      main.py:416-421 does the same for the final composites). */
  method NameAll(labels: seq<char>, comps: seq<seq<nat>>) returns (names: seq<string>)
    requires forall t :: 0 <= t < |comps| ==> InRange(comps[t], |labels|)
    ensures |names| == |comps|
    ensures forall t :: 0 <= t < |comps| ==> names[t] == Joined(labels, comps[t])
  {
    names := [];
    for t := 0 to |comps|
      invariant |names| == t
      invariant forall u :: 0 <= u < t ==> names[u] == Joined(labels, comps[u])
    {
      var name := JoinName(labels, comps[t]);
      names := names + [name];
    }
  }

  /** All members of all composites, one composite after the other. */
  function Flatten(comps: seq<seq<nat>>): (r: seq<nat>)
    ensures forall x :: x in r <==> exists t :: 0 <= t < |comps| && x in comps[t]
  {
    if comps == [] then []
    else
      var r := Flatten(comps[..|comps| - 1]) + comps[|comps| - 1];
      assert forall t :: 0 <= t < |comps| - 1 ==> comps[..|comps| - 1][t] == comps[t];
      r
  }

  /** The nested loop of main.py:410-414: the initial composites' members
      all go into ONE name.  With exactly one initial composite that is its
      name; with none it is the empty string. */
  method StartName(labels: seq<char>, startComps: seq<seq<nat>>) returns (name: string)
    requires forall t :: 0 <= t < |startComps| ==> InRange(startComps[t], |labels|)
    ensures InRange(Flatten(startComps), |labels|)
    ensures name == Joined(labels, Flatten(startComps))
    ensures |startComps| == 1 ==> name == Joined(labels, startComps[0])
  {
    var s := "";
    for t := 0 to |startComps|
      invariant InRange(Flatten(startComps[..t]), |labels|)
      invariant s == Spelled(labels, Flatten(startComps[..t]))
    {
      assert startComps[..t + 1][..t] == startComps[..t];
      assert Flatten(startComps[..t + 1]) == Flatten(startComps[..t]) + startComps[t];
      s := SpellOnto(labels, Flatten(startComps[..t]), startComps[t], s);
    }
    assert startComps[..|startComps|] == startComps;
    var all := Flatten(startComps);
    if all != [] {
      SpelledIsJoined(labels, all);
    }
    name := if |s| >= 2 then s[..|s| - 2] else "";
    if |startComps| == 1 {
      assert startComps[..0] == [];
      assert Flatten(startComps[..0]) == [];
      assert Flatten(startComps) == [] + startComps[0];
      assert [] + startComps[0] == startComps[0];
      assert Joined(labels, Flatten(startComps)) == Joined(labels, startComps[0]);
    }
  }

  /** The inner loop of main.py:411-414: appends each label of `comp`,
      followed by ", ", to what was spelled for `prefix`. */
  method SpellOnto(labels: seq<char>, prefix: seq<nat>, comp: seq<nat>, s0: string) returns (s: string)
    requires InRange(prefix, |labels|) && InRange(comp, |labels|)
    requires s0 == Spelled(labels, prefix)
    ensures InRange(prefix + comp, |labels|)
    ensures s == Spelled(labels, prefix + comp)
  {
    s := s0;
    assert prefix + comp[..0] == prefix;
    for k := 0 to |comp|
      invariant s == Spelled(labels, prefix + comp[..k])
    {
      assert prefix + comp[..k + 1] == (prefix + comp[..k]) + [comp[k]];
      s := s + [labels[comp[k]]] + ", ";
    }
    assert comp[..|comp|] == comp;
  }

  // ---------------------------------------------------------------------
  // What a name tells about its composite.

  /** The name of a non-empty composite has one character per member label
      plus two per separator, labels at every third position and ", "
      between them. */
  lemma JoinedLayout(labels: seq<char>, comp: seq<nat>)
    requires InRange(comp, |labels|) && comp != []
    ensures |Joined(labels, comp)| == 3 * |comp| - 2
    ensures forall t :: 0 <= t < |comp| ==> Joined(labels, comp)[3 * t] == labels[comp[t]]
    ensures forall t :: 0 <= t < |comp| - 1 ==>
      Joined(labels, comp)[3 * t + 1] == ',' && Joined(labels, comp)[3 * t + 2] == ' '
  {
    JoinedLength(labels, comp);
    forall t | 0 <= t < |comp| ensures Joined(labels, comp)[3 * t] == labels[comp[t]] {
      JoinedLabelAt(labels, comp, t);
    }
    forall t | 0 <= t < |comp| - 1 ensures Joined(labels, comp)[3 * t + 1] == ',' && Joined(labels, comp)[3 * t + 2] == ' ' {
      JoinedSeparatorAt(labels, comp, t);
    }
  }

  lemma {:induction false} JoinedLength(labels: seq<char>, comp: seq<nat>)
    requires InRange(comp, |labels|) && comp != []
    ensures |Joined(labels, comp)| == 3 * |comp| - 2
    decreases |comp|
  {
    if |comp| > 1 {
      JoinedLength(labels, comp[1..]);
    }
  }

  lemma {:induction false} JoinedLabelAt(labels: seq<char>, comp: seq<nat>, t: nat)
    requires InRange(comp, |labels|) && t < |comp|
    ensures 3 * t < |Joined(labels, comp)| && Joined(labels, comp)[3 * t] == labels[comp[t]]
    decreases t
  {
    JoinedLength(labels, comp);
    if t > 0 {
      var rest := comp[1..];
      JoinedLabelAt(labels, rest, t - 1);
      JoinedLength(labels, rest);
      assert Joined(labels, comp)[3..] == Joined(labels, rest);
      ShiftByThree(Joined(labels, comp), Joined(labels, rest), 3 * (t - 1));
    }
  }

  lemma {:induction false} JoinedSeparatorAt(labels: seq<char>, comp: seq<nat>, t: nat)
    requires InRange(comp, |labels|) && t < |comp| - 1
    ensures 3 * t + 2 < |Joined(labels, comp)|
    ensures Joined(labels, comp)[3 * t + 1] == ',' && Joined(labels, comp)[3 * t + 2] == ' '
    decreases t
  {
    JoinedLength(labels, comp);
    if t > 0 {
      var rest := comp[1..];
      JoinedSeparatorAt(labels, rest, t - 1);
      JoinedLength(labels, rest);
      assert Joined(labels, comp)[3..] == Joined(labels, rest);
      ShiftByThree(Joined(labels, comp), Joined(labels, rest), 3 * (t - 1) + 1);
      ShiftByThree(Joined(labels, comp), Joined(labels, rest), 3 * (t - 1) + 2);
    }
  }

  /** Position k of R is position k + 3 of J when R is J without its first
      three characters. */
  lemma ShiftByThree(J: string, R: string, k: nat)
    requires |J| == |R| + 3 && J[3..] == R && k < |R|
    ensures J[k + 3] == R[k]
  {
    assert J[k + 3] == J[3..][k];
  }

  /** Reading every third character of a name back. */
  function Unjoin(name: string): (r: seq<char>)
    decreases |name|
  {
    if name == [] then []
    else if |name| <= 3 then [name[0]]
    else [name[0]] + Unjoin(name[3..])
  }

  /** Round trip: the member labels can be read back from the name. */
  lemma {:induction false} UnjoinJoined(labels: seq<char>, comp: seq<nat>)
    requires InRange(comp, |labels|)
    ensures Unjoin(Joined(labels, comp)) == LabelsOf(labels, comp)
    decreases |comp|
  {
    if |comp| > 1 {
      var rest := comp[1..];
      UnjoinJoined(labels, rest);
      var J := Joined(labels, comp);
      JoinedLayout(labels, rest);
      assert J[3..] == Joined(labels, rest);
      assert LabelsOf(labels, comp) == [labels[comp[0]]] + LabelsOf(labels, rest);
    }
  }

  /** A label character occurs in a name exactly when it is a member's label. */
  lemma {:induction false} JoinedMembership(labels: seq<char>, comp: seq<nat>, c: char)
    requires InRange(comp, |labels|) && IsLabelChar(c)
    ensures c in Joined(labels, comp) <==> c in LabelsOf(labels, comp)
    decreases |comp|
  {
    if |comp| > 1 {
      var rest := comp[1..];
      JoinedMembership(labels, rest, c);
      assert Joined(labels, comp) == [labels[comp[0]]] + ", " + Joined(labels, rest);
      assert LabelsOf(labels, comp) == [labels[comp[0]]] + LabelsOf(labels, rest);
    }
  }

  /** With distinct label characters, the label of state q occurs in the name
      of a composite exactly when q is a member, and the name starts with the
      label of the first member. */
  lemma NameMembers(d: Machine, comp: seq<nat>, q: nat)
    requires Valid(d) && InRange(comp, d.Size()) && q < d.Size()
    ensures d.labels[q] in Joined(d.labels, comp) <==> q in comp
    ensures comp != [] ==> Joined(d.labels, comp)[0] == d.labels[comp[0]]
  {
    JoinedMembership(d.labels, comp, d.labels[q]);
    if comp != [] {
      JoinedLayout(d.labels, comp);
      assert Joined(d.labels, comp)[3 * 0] == d.labels[comp[0]];
    }
    if d.labels[q] in LabelsOf(d.labels, comp) {
      var k :| 0 <= k < |comp| && LabelsOf(d.labels, comp)[k] == d.labels[q];
      assert d.labels[comp[k]] == d.labels[q];
      assert comp[k] == q;
    }
    if q in comp {
      var k :| 0 <= k < |comp| && comp[k] == q;
      assert LabelsOf(d.labels, comp)[k] == d.labels[q];
    }
  }
}
