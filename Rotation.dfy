/**
 * The rotation list of the circle method: team 1 stays fixed, every other
 * team (and, for an odd team count, one bye marker) sits in a list that is
 * rotated right by one place after every round.
 */
module Rotation {

  /** The marker that fills the empty seat of the circle when the team count is odd. */
  const Bye: int := -1

  /** Number of rounds (`roundDiv`): n - 1 rounds for an even team count, n for an odd one. */
  function RoundDiv(n: nat): int
  {
    if n % 2 == 0 then n - 1 else n
  }

  /** The rotation list before the first round: teams 2..n, then the bye when n is odd. */
  function InitialRotation(n: nat): (r: seq<int>)
    ensures |r| == if n == 0 then 0 else RoundDiv(n)
  {
    seq(if n < 2 then 0 else n - 1, i => i + 2) + (if n % 2 != 0 then [Bye] else [])
  }

  /** One rotation step: the last entry is removed and put back at the front. */
  function Rotate(l: seq<int>): (r: seq<int>)
    requires |l| > 0
    ensures |r| == |l|
  {
    [l[|l| - 1]] + l[..|l| - 1]
  }

  /** The rotation list after `j` rounds. */
  function RotateN(l: seq<int>, j: nat): (r: seq<int>)
    requires j == 0 || |l| > 0
    ensures |r| == |l|
  {
    if j == 0 then l else Rotate(RotateN(l, j - 1))
  }

  /** One rotation step is a permutation. */
  lemma RotatePermutes(l: seq<int>)
    requires |l| > 0
    ensures multiset(Rotate(l)) == multiset(l)
  {
    var init, last := l[..|l| - 1], l[|l| - 1];
    assert l == init + [last];
  }

  /** Rotating never adds, drops or duplicates an entry: every round's list is a permutation of the initial one. */
  lemma {:induction false} RotateNPermutes(l: seq<int>, j: nat)
    requires j == 0 || |l| > 0
    ensures multiset(RotateN(l, j)) == multiset(l)
  {
    if j > 0 {
      RotateNPermutes(l, j - 1);
      RotatePermutes(RotateN(l, j - 1));
    }
  }

  /** The index in the original list of the entry found at index `i` after `j` rotations of a list of length `m`. */
  function Origin(i: int, j: int, m: int): int
  {
    if i >= j then i - j else i - j + m
  }

  /** The index reached after `j` rotations by the entry at index `a` of a list of length `m`. */
  function Landing(a: int, j: int, m: int): int
  {
    if a + j < m then a + j else a + j - m
  }

  /** `v` occurs in `l` exactly at index `p`; `p == |l|` says that `v` does not occur at all. */
  ghost predicate Locates(l: seq<int>, v: int, p: int)
  {
    forall i :: 0 <= i < |l| ==> (l[i] == v <==> i == p)
  }

  /**
   * The index of `v` in the initial rotation list of `n` teams: `t - 2` for a
   * team t >= 2, the last index for the bye when n is odd, and the list's
   * length (nowhere) for team 1 and for the bye when n is even.
   */
  function InitialIndex(n: nat, v: int): int
  {
    var m := |InitialRotation(n)|;
    if 2 <= v <= n then v - 2
    else if v == Bye && n % 2 == 1 then m - 1
    else m
  }

  /** Where `v` sits in the rotation list of round `j`. */
  function Seat(n: nat, j: nat, v: int): int
  {
    var m := |InitialRotation(n)|;
    var a := InitialIndex(n, v);
    if a == m then m else Landing(a, j, m)
  }

  /** The initial list holds teams 2..n in order, ends with the bye exactly when n is odd, and has odd length. */
  lemma InitialRotationShape(n: nat)
    requires n >= 1
    ensures var l := InitialRotation(n);
      && |l| == RoundDiv(n)
      && |l| % 2 == 1
      && (forall i :: 0 <= i < |l| ==> l[i] == if i < n - 1 then i + 2 else Bye)
      && (l[|l| - 1] == Bye <==> n % 2 == 1)
  {
  }

  /** After `j` rotations (at most one full turn) the entry at index `i` is the original entry at `Origin(i, j, |l|)`. */
  lemma {:induction false} RotateNAt(l: seq<int>, j: nat, i: int)
    requires 0 < |l| && j <= |l| && 0 <= i < |l|
    ensures 0 <= Origin(i, j, |l|) < |l|
    ensures RotateN(l, j)[i] == l[Origin(i, j, |l|)]
  {
    if j > 0 {
      var prev := RotateN(l, j - 1);
      var k := if i == 0 then |l| - 1 else i - 1;
      RotateNAt(l, j - 1, k);
      assert RotateN(l, j) == [prev[|prev| - 1]] + prev[..|prev| - 1];
      assert RotateN(l, j)[i] == prev[k];
    }
  }

  /** A full turn of the circle, one rotation per round, brings the list back to where it started. */
  lemma RotationCycle(l: seq<int>)
    requires |l| > 0
    ensures RotateN(l, |l|) == l
  {
    forall i | 0 <= i < |l|
      ensures RotateN(l, |l|)[i] == l[i]
    {
      RotateNAt(l, |l|, i);
    }
  }

  /** After the `RoundDiv(n)` rounds of `n` teams the rotation list is back to its initial value. */
  lemma FullTurn(n: nat)
    requires n >= 1
    ensures RotateN(InitialRotation(n), RoundDiv(n)) == InitialRotation(n)
  {
    InitialRotationShape(n);
    RotationCycle(InitialRotation(n));
  }

  /** Every round's rotation list of `n` teams has each team 2..n and the bye (odd n) at its `Seat`, and team 1 nowhere. */
  lemma RotatedLocates(n: nat, j: nat, v: int)
    requires n >= 1 && j < RoundDiv(n)
    ensures 0 <= Seat(n, j, v) <= |InitialRotation(n)|
    ensures Locates(RotateN(InitialRotation(n), j), v, Seat(n, j, v))
  {
    var l0 := InitialRotation(n);
    InitialRotationShape(n);
    forall i | 0 <= i < |l0|
      ensures RotateN(l0, j)[i] == v <==> i == Seat(n, j, v)
    {
      RotateNAt(l0, j, i);
    }
  }
}
