/**
 * What the circle method guarantees for `n` teams, stated about the match
 * list before the five-team reordering: every round is a (near-)perfect
 * matching of floor(n/2) matches, and over all rounds every pair of teams
 * meets exactly once.
 */
module RoundRobin {
  import opened Rotation
  import opened Pairing

  /** The rotation list of round `j` (0-based) for `n` teams. */
  function RoundList(n: nat, j: nat): seq<int>
    requires n >= 1 && j < RoundDiv(n)
  {
    RotateN(InitialRotation(n), j)
  }

  /**
   * The round in which the entries at indices `a` and `b` of an initial list
   * of odd length `m` face each other: the `j` with 2j + a + b == m - 2 modulo m.
   */
  function Meet(m: int, a: int, b: int): int
  {
    var d := m - 2 - a - b;
    if d >= 0 && d % 2 == 0 then d / 2
    else if d % 2 == 1 then (d + m) / 2
    else (d + 2 * m) / 2
  }

  /** The round (0-based) in which teams `a < b` of `n` play each other. */
  function MeetingRound(n: nat, a: int, b: int): int
  {
    var m := RoundDiv(n);
    if a == 1 then m - 1 - (b - 2) else Meet(m, a - 2, b - 2)
  }

  /** Two entries of the circle face each other in round `j`: the rounds `k` with 2k + a + b == m - 2 modulo m. */
  lemma LandingSum(m: int, a: int, b: int, j: int, k: int)
    requires m >= 1 && m % 2 == 1
    requires 0 <= a < b < m && 0 <= j < m && 0 <= k < m
    requires 2 * k + a + b + 2 == m || 2 * k + a + b + 2 == 2 * m || 2 * k + a + b + 2 == 3 * m
    ensures Landing(a, j, m) + Landing(b, j, m) == m - 2 <==> j == k
    ensures Landing(a, j, m) + Landing(b, j, m) == m - 2 ==> Landing(a, j, m) < (m - 1) / 2 || Landing(b, j, m) < (m - 1) / 2
  {
  }

  /** Twice the meeting round of entries `a` and `b`, plus a + b + 2, is a multiple of `m`. */
  lemma MeetDoubled(m: int, a: int, b: int)
    requires m >= 1 && m % 2 == 1
    requires 0 <= a < b < m
    ensures 0 <= Meet(m, a, b) < m
    ensures var k := Meet(m, a, b); 2 * k + a + b + 2 == m || 2 * k + a + b + 2 == 2 * m || 2 * k + a + b + 2 == 3 * m
  {
    var d := m - 2 - a - b;
    if d >= 0 && d % 2 == 0 {
      assert 2 * Meet(m, a, b) == d;
    } else if d % 2 == 1 {
      assert 2 * Meet(m, a, b) == d + m;
    } else {
      assert 2 * Meet(m, a, b) == d + 2 * m;
    }
  }

  /** Two entries of the circle face each other in round `j` exactly when `j` is their meeting round. */
  lemma MeetArith(m: int, a: int, b: int, j: int)
    requires m >= 1 && m % 2 == 1
    requires 0 <= a < b < m && 0 <= j < m
    ensures 0 <= Meet(m, a, b) < m
    ensures Landing(a, j, m) + Landing(b, j, m) == m - 2 <==> j == Meet(m, a, b)
    ensures Landing(a, j, m) + Landing(b, j, m) == m - 2 ==> Landing(a, j, m) < (m - 1) / 2 || Landing(b, j, m) < (m - 1) / 2
  {
    MeetDoubled(m, a, b);
    LandingSum(m, a, b, j, Meet(m, a, b));
  }

  /** The arithmetic of `RoundPairCount`: where the two teams sit decides whether round `j` is their meeting round. */
  lemma MeetingSeats(n: nat, j: nat, a: int, b: int, pa: int, pb: int)
    requires n >= 2 && j < RoundDiv(n) && 1 <= a < b <= n
    requires pa == (if a == 1 then RoundDiv(n) else Landing(a - 2, j, RoundDiv(n)))
    requires pb == Landing(b - 2, j, RoundDiv(n))
    ensures 0 <= MeetingRound(n, a, b) < RoundDiv(n)
    ensures var m := RoundDiv(n);
      (if a == 1 then pb == m - 1 else pa + pb == m - 2 && (pa < (m - 1) / 2 || pb < (m - 1) / 2))
      <==> j == MeetingRound(n, a, b)
  {
    if a != 1 {
      MeetArith(RoundDiv(n), a - 2, b - 2, j);
    }
  }

  /** In round `j`, teams `a < b` play each other exactly once if `j` is their meeting round, and otherwise not at all. */
  lemma RoundPairCount(n: nat, j: nat, a: int, b: int)
    requires n >= 2 && j < RoundDiv(n) && 1 <= a < b <= n
    ensures 0 <= MeetingRound(n, a, b) < RoundDiv(n)
    ensures Count(RoundMatches(RoundList(n, j)), a, b) == if j == MeetingRound(n, a, b) then 1 else 0
  {
    var l := RoundList(n, j);
    RotatedLocates(n, j, a);
    RotatedLocates(n, j, b);
    RoundCount(l, a, b, Seat(n, j, a), Seat(n, j, b));
    MeetingSeats(n, j, a, b, Seat(n, j, a), Seat(n, j, b));
  }

  /** Teams `a < b` share a round with each other in exactly one round, `k`, of the `RoundDiv(n)` rounds. */
  lemma MeetingRoundOf(n: nat, a: int, b: int) returns (k: int)
    requires n >= 2 && 1 <= a < b <= n
    ensures 0 <= k < RoundDiv(n)
    ensures forall j :: 0 <= j < RoundDiv(n) ==> Count(RoundMatches(RotateN(InitialRotation(n), j)), a, b) == if j == k then 1 else 0
  {
    k := MeetingRound(n, a, b);
    RoundPairCount(n, 0, a, b);
    forall j | 0 <= j < RoundDiv(n)
      ensures Count(RoundMatches(RotateN(InitialRotation(n), j)), a, b) == if j == k then 1 else 0
    {
      RoundPairCount(n, j, a, b);
    }
  }

  /** Over all rounds, teams `a < b` play each other exactly once. */
  lemma RoundsPairCount(n: nat, a: int, b: int)
    requires n >= 2 && 1 <= a < b <= n
    ensures Count(Rounds(InitialRotation(n), RoundDiv(n)), a, b) == 1
  {
    var k := MeetingRoundOf(n, a, b);
    RoundsCountUpTo(InitialRotation(n), RoundDiv(n), a, b, k);
  }

  /** Every round's rotation list holds distinct entries, each a team of 2..n or the bye. */
  lemma RoundListShape(n: nat, j: nat)
    requires n >= 1 && j < RoundDiv(n)
    ensures var l := RoundList(n, j);
      && |l| == RoundDiv(n)
      && (forall i :: 0 <= i < |l| ==> l[i] == Bye || 2 <= l[i] <= n)
      && (forall i, k :: 0 <= i < k < |l| ==> l[i] != l[k])
  {
    var l0, l := InitialRotation(n), RoundList(n, j);
    InitialRotationShape(n);
    forall i | 0 <= i < |l|
      ensures l[i] == Bye || 2 <= l[i] <= n
    {
      RotateNAt(l0, j, i);
    }
    forall i, k | 0 <= i < k < |l|
      ensures l[i] != l[k]
    {
      RotatedLocates(n, j, l[i]);
    }
  }

  /** Every round has floor(n/2) matches: n/2 for even n; for odd n the team facing the bye sits out. */
  lemma RoundSize(n: nat, j: nat)
    requires n >= 2 && j < RoundDiv(n)
    ensures |RoundMatches(RoundList(n, j))| == n / 2
  {
    RotatedLocates(n, j, Bye);
    RoundLength(RoundList(n, j), Seat(n, j, Bye));
  }

  /** Every match of every round is between two different teams of 1..n, with team 1 only ever first. */
  lemma RoundAllValid(n: nat, j: nat)
    requires n >= 2 && j < RoundDiv(n)
    ensures AllValid(RoundMatches(RoundList(n, j)), n)
  {
    RoundListShape(n, j);
    RoundValid(RoundList(n, j), n);
  }

  /** For odd n, the team that sits out round `j`: team 1 when the bye is last, otherwise the team facing the bye. */
  function SitsOut(n: nat, j: nat): int
  {
    var m := RoundDiv(n);
    var q := Landing(m - 1, j, m);
    if q == m - 1 then 1 else Origin(m - 2 - q, j, m) + 2
  }

  /** For odd n, the round that team `t` sits out. */
  function SitOutRound(n: nat, t: int): int
  {
    var m := RoundDiv(n);
    var a := t - 2;
    if t == 1 then 0
    else if a % 2 == 0 then (m - 1 - a) / 2
    else (2 * m - 1 - a) / 2
  }

  /** The arithmetic of `RoundPlayers`: team `t` at `p` faces the bye at `q` exactly when it is the one that sits out. */
  lemma SitOutSeats(n: nat, j: nat, t: int, p: int, q: int)
    requires n >= 3 && n % 2 == 1 && j < n && 2 <= t <= n
    requires p == Landing(t - 2, j, n) && q == Landing(n - 1, j, n)
    ensures p + q == n - 2 <==> t == SitsOut(n, j)
  {
  }

  /**
   * In every round each team plays exactly once, except that for odd n the
   * team `SitsOut(n, j)` does not play at all.
   */
  lemma RoundPlayers(n: nat, j: nat, t: int)
    requires n >= 2 && j < RoundDiv(n) && 1 <= t <= n
    ensures Involvements(RoundMatches(RoundList(n, j)), t) == if n % 2 == 1 && t == SitsOut(n, j) then 0 else 1
  {
    var l := RoundList(n, j);
    RotatedLocates(n, j, t);
    RotatedLocates(n, j, Bye);
    var p, q := Seat(n, j, t), Seat(n, j, Bye);
    RoundInvolvements(l, t, p, q);
    if n % 2 == 1 && t != 1 {
      SitOutSeats(n, j, t, p, q);
    }
  }

  /** For odd n, every team sits out exactly one round, and each round exactly one team sits out. */
  lemma SitsOutOnce(n: nat, t: int, j: nat)
    requires n >= 3 && n % 2 == 1 && 1 <= t <= n && j < n
    ensures 0 <= SitOutRound(n, t) < n
    ensures 1 <= SitsOut(n, j) <= n
    ensures SitsOut(n, j) == t <==> j == SitOutRound(n, t)
  {
  }

  /** After `r` rounds the match list holds r * floor(n/2) matches. */
  lemma RoundsLength(n: nat, r: nat)
    requires n >= 2 && r <= RoundDiv(n)
    ensures |Rounds(InitialRotation(n), r)| == r * (n / 2)
    decreases r, 1
  {
    if r > 0 {
      RoundsLengthAfter(n, r);
    }
  }

  /** `RoundsLength` for at least one round, by induction on the rounds played. */
  lemma RoundsLengthAfter(n: nat, r: nat)
    requires n >= 2 && 0 < r <= RoundDiv(n)
    ensures |Rounds(InitialRotation(n), r)| == r * (n / 2)
    decreases r, 0
  {
    RoundsLength(n, r - 1);
    RoundsLengthGrows(n, r);
    RotatedRoundSize(n, r - 1);
  }

  /** The matches over the first `r` rounds: r - 1 rounds of floor(n/2) matches, then those of round r - 1. */
  lemma RoundsLengthGrows(n: nat, r: nat)
    requires n >= 2 && 0 < r <= RoundDiv(n)
    requires |Rounds(InitialRotation(n), r - 1)| == (r - 1) * (n / 2)
    ensures |Rounds(InitialRotation(n), r)| + n / 2 == r * (n / 2) + |RoundMatches(RotateN(InitialRotation(n), r - 1))|
  {
    RoundsLengthStep(InitialRotation(n), r);
    OneMoreRound(r, n / 2);
  }

  /** `RoundSize` for the round played with the initial list rotated `j` times. */
  lemma RotatedRoundSize(n: nat, j: nat)
    requires n >= 2 && j < RoundDiv(n)
    ensures |RoundMatches(RotateN(InitialRotation(n), j))| == n / 2
  {
    RoundSize(n, j);
  }

  /** One more round of `h` matches after r - 1 of them makes r of them. */
  lemma OneMoreRound(r: int, h: int)
    ensures (r - 1) * h + h == r * h
  {
  }

  /** After `r` rounds every match in the list is valid. */
  lemma RoundsAllValid(n: nat, r: nat)
    requires n >= 2 && r <= RoundDiv(n)
    ensures AllValid(Rounds(InitialRotation(n), r), n)
    decreases r, 1
  {
    if r > 0 {
      RoundsAllValidAfter(n, r);
    }
  }

  /** `RoundsAllValid` for at least one round, by induction on the rounds played. */
  lemma RoundsAllValidAfter(n: nat, r: nat)
    requires n >= 2 && 0 < r <= RoundDiv(n)
    ensures AllValid(Rounds(InitialRotation(n), r), n)
    decreases r, 0
  {
    RoundsAllValid(n, r - 1);
    RoundAllValid(n, r - 1);
    RoundsValidStep(InitialRotation(n), r, n);
  }

  /** Fewer than two teams play no match at all. */
  lemma FlattenedTooFew(n: nat)
    requires n < 2
    ensures Flattened(n) == []
  {
    if n == 1 {
      assert InitialRotation(1) == [Bye];
      assert RoundMatches([Bye]) == [];
    }
  }

  /** The complete match list has n(n-1)/2 matches: one per pair of teams, byes excluded. */
  lemma FlattenedLength(n: nat)
    ensures |Flattened(n)| == n * (n - 1) / 2
  {
    if n < 2 {
      FlattenedTooFew(n);
    } else {
      RoundsLength(n, RoundDiv(n));
      RoundsTimesHalf(n);
    }
  }

  /** The number of rounds times floor(n/2) is n(n-1)/2. */
  lemma RoundsTimesHalf(n: nat)
    requires n >= 2
    ensures RoundDiv(n) * (n / 2) == n * (n - 1) / 2
  {
    var h := n / 2;
    var r := RoundDiv(n);
    var p := r * h;
    if n % 2 == 0 {
      assert n == 2 * h && n - 1 == r;
      assert n * (n - 1) == 2 * h * r;
    } else {
      assert n - 1 == 2 * h && n == r;
      assert n * (n - 1) == r * (2 * h);
    }
    assert n * (n - 1) == 2 * p;
    assert n * (n - 1) / 2 == p;
  }

  /** Every match of the complete list is between two different teams of 1..n; team 1 is only ever named first. */
  lemma FlattenedValid(n: nat)
    ensures AllValid(Flattened(n), n)
  {
    if n < 2 {
      FlattenedTooFew(n);
    } else {
      RoundsAllValid(n, RoundDiv(n));
    }
  }

  /**
   * A single round robin: every two different teams of 1..n meet exactly
   * once in the complete list, in either order, and no other pairing occurs.
   */
  lemma FlattenedCount(n: nat, a: int, b: int)
    ensures Count(Flattened(n), a, b) == if 1 <= a <= n && 1 <= b <= n && a != b then 1 else 0
  {
    FlattenedValid(n);
    if 1 <= a <= n && 1 <= b <= n && a != b {
      var lo, hi := if a < b then a else b, if a < b then b else a;
      RoundsPairCount(n, lo, hi);
      CountSymmetric(Flattened(n), a, b);
    } else {
      CountOutsideRoster(Flattened(n), n, a, b);
    }
  }

  /** For odd n, each team is absent from exactly one round: the round `SitOutRound(n, t)`. */
  lemma ByeRotation(n: nat, t: int, j: nat)
    requires n >= 3 && n % 2 == 1 && 1 <= t <= n && j < n
    ensures Involvements(RoundMatches(RoundList(n, j)), t) == 0 <==> j == SitOutRound(n, t)
  {
    RoundPlayers(n, j, t);
    SitsOutOnce(n, t, j);
  }
}
