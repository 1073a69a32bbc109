/**
 * The play order: the flattened rounds, with the one hard-coded correction
 * `makeSeed` applies when there are exactly five teams.
 */
module Sequencing {
  import opened Rotation
  import opened Pairing
  import opened RoundRobin

  /** `ArrayList.remove(i)`: the list without its entry at `i`. */
  function RemoveAt(s: seq<Match>, i: nat): seq<Match>
    requires i < |s|
  {
    s[..i] + s[i + 1..]
  }

  /** `ArrayList.add(i, x)`: `x` inserted so that it ends up at index `i`. */
  function InsertAt(s: seq<Match>, i: nat, x: Match): seq<Match>
    requires i <= |s|
  {
    s[..i] + [x] + s[i..]
  }

  /**
   * The five-team correction: the match at index 8 is moved to the end,
   * then the match now at index 6 is moved to index 7.
   */
  function FixUp(s: seq<Match>): seq<Match>
    requires |s| >= 9
  {
    var t := RemoveAt(s, 8) + [s[8]];
    InsertAt(RemoveAt(t, 6), 7, t[6])
  }

  /** The index in the uncorrected list of the match that the correction puts at index `i` of a list of length `len`. */
  function FixUpSource(i: int, len: int): int
  {
    if i < 6 then i
    else if i == 6 then 7
    else if i == 7 then 6
    else if i == len - 1 then 8
    else i + 1
  }

  /** The play order of `n` teams: the flattened rounds, corrected when n is 5. */
  function Schedule(n: nat): seq<Match>
  {
    if n == 5 then FlattenedLength(n); FixUp(Flattened(n)) else Flattened(n)
  }

  /** How the play order is reached: every round in turn, then the correction when there are five teams. */
  lemma ScheduleSteps(n: nat)
    ensures n == 5 ==> |Flattened(n)| >= 9 && Schedule(n) == FixUp(Flattened(n))
    ensures n != 5 ==> Schedule(n) == Flattened(n)
  {
    if n == 5 {
      FlattenedLength(n);
    }
  }

  /** The correction as one rearrangement: indices 0..5 stay, 6 and 7 swap, 9.. move up one, and 8 goes last. */
  lemma FixUpShape(s: seq<Match>)
    requires |s| >= 9
    ensures FixUp(s) == s[..6] + [s[7], s[6]] + s[9..] + [s[8]]
  {
  }

  /** The correction keeps the length and takes every entry from the index `FixUpSource` names. */
  lemma FixUpAt(s: seq<Match>)
    requires |s| >= 9
    ensures |FixUp(s)| == |s|
    ensures forall i :: 0 <= i < |s| ==> 0 <= FixUpSource(i, |s|) < |s| && FixUp(s)[i] == s[FixUpSource(i, |s|)]
  {
    FixUpShape(s);
  }

  /** For ten matches, the correction plays them in the order 0, 1, 2, 3, 4, 5, 7, 6, 9, 8. */
  lemma FixUpOfTen(s: seq<Match>)
    requires |s| == 10
    ensures FixUp(s) == [s[0], s[1], s[2], s[3], s[4], s[5], s[7], s[6], s[9], s[8]]
  {
    FixUpShape(s);
  }

  /** The correction is a permutation: it neither adds nor drops a match. */
  lemma FixUpPermutes(s: seq<Match>)
    requires |s| >= 9
    ensures multiset(FixUp(s)) == multiset(s)
  {
    var head, tail := s[..6], s[9..];
    FixUpShape(s);
    assert s == head + [s[6], s[7]] + [s[8]] + tail;
    assert multiset(s) == multiset(head) + multiset([s[6], s[7]]) + multiset([s[8]]) + multiset(tail);
    assert multiset([s[7], s[6]]) == multiset([s[6], s[7]]);
    assert multiset(FixUp(s)) == multiset(head) + multiset([s[7], s[6]]) + multiset(tail) + multiset([s[8]]);
  }

  /** The correction changes no pairing count. */
  lemma FixUpCount(s: seq<Match>, a: int, b: int)
    requires |s| >= 9
    ensures Count(FixUp(s), a, b) == Count(s, a, b)
  {
    FixUpShape(s);
    var head, mid, tail := s[..6], s[6..8], s[9..];
    assert s == head + mid + [s[8]] + tail;
    assert FixUp(s) == head + [s[7], s[6]] + tail + [s[8]];
    CountConcat(head + mid + [s[8]], tail, a, b);
    CountConcat(head + mid, [s[8]], a, b);
    CountConcat(head, mid, a, b);
    CountConcat(head + [s[7], s[6]] + tail, [s[8]], a, b);
    CountConcat(head + [s[7], s[6]], tail, a, b);
    CountConcat(head, [s[7], s[6]], a, b);
    assert Count(mid, a, b) == Count([s[7], s[6]], a, b) by {
      assert mid == [s[6]] + [s[7]];
      assert [s[7], s[6]] == [s[7]] + [s[6]];
      CountConcat([s[6]], [s[7]], a, b);
      CountConcat([s[7]], [s[6]], a, b);
    }
  }

  /** The play order has n(n-1)/2 matches. */
  lemma ScheduleLength(n: nat)
    ensures |Schedule(n)| == n * (n - 1) / 2
  {
    FlattenedLength(n);
    if n == 5 {
      FixUpAt(Flattened(5));
    }
  }

  /** Every match of the play order is between two different teams of 1..n; team 1 is only ever named first. */
  lemma ScheduleValid(n: nat)
    ensures AllValid(Schedule(n), n)
  {
    FlattenedValid(n);
    if n == 5 {
      FlattenedLength(5);
      FixUpAt(Flattened(5));
    }
  }

  /** The play order is a single round robin: every two different teams of 1..n meet exactly once, and nobody else meets. */
  lemma ScheduleCount(n: nat, a: int, b: int)
    ensures Count(Schedule(n), a, b) == if 1 <= a <= n && 1 <= b <= n && a != b then 1 else 0
  {
    FlattenedCount(n, a, b);
    if n == 5 {
      FlattenedLength(5);
      FixUpCount(Flattened(5), a, b);
    }
  }

  /** Two matches share a team. */
  predicate SharesTeam(x: Match, y: Match)
  {
    Involves(y, x.first) || Involves(y, x.second)
  }

  /** Some team plays the match at `i` and the next one, without a break. */
  predicate BackToBack(s: seq<Match>, i: int)
  {
    0 <= i && i + 1 < |s| && SharesTeam(s[i], s[i + 1])
  }

  /** Two teams: the single match. */
  lemma TwoTeams()
    ensures Schedule(2) == [Match(1, 2)]
  {
    assert InitialRotation(2) == [2];
    assert Flattened(2) == Rounds([2], 1);
  }

  /** Three teams: one match per round, one team sitting out each round. */
  lemma ThreeTeams()
    ensures Schedule(3) == [Match(2, 3), Match(1, 3), Match(1, 2)]
  {
    var l0 := InitialRotation(3);
    assert l0 == [2, 3, Bye];
    ThreeTeamRoundsFrom(l0);
  }

  /** The three rounds played from the three-team rotation list, one after the other. */
  lemma ThreeTeamRoundsFrom(l: seq<int>)
    requires l == [2, 3, Bye]
    ensures Rounds(l, 3) == [Match(2, 3), Match(1, 3), Match(1, 2)]
  {
    ThreeRoundsJoined(l);
    ThreeTeamRotations(l);
    ThreeTeamRoundMatches();
  }

  /** The rotation lists of the three rounds of three teams. */
  lemma ThreeTeamRotations(l: seq<int>)
    requires l == [2, 3, Bye]
    ensures RotateN(l, 1) == [Bye, 2, 3]
    ensures RotateN(l, 2) == [3, Bye, 2]
  {
  }

  /** The matches of the three rounds of three teams. */
  lemma ThreeTeamRoundMatches()
    ensures RoundMatches([2, 3, Bye]) == [Match(2, 3)]
    ensures RoundMatches([Bye, 2, 3]) == [Match(1, 3)]
    ensures RoundMatches([3, Bye, 2]) == [Match(1, 2)]
  {
    RoundOfThree([2, 3, Bye]);
    RoundOfThree([Bye, 2, 3]);
    RoundOfThree([3, Bye, 2]);
  }

  /** Three rounds from any rotation list, as the concatenation of their matches. */
  lemma ThreeRoundsJoined(l: seq<int>)
    requires |l| > 0
    ensures Rounds(l, 3) == RoundMatches(RotateN(l, 0)) + RoundMatches(RotateN(l, 1)) + RoundMatches(RotateN(l, 2))
  {
    var m0, m1, m2 := RoundMatches(RotateN(l, 0)), RoundMatches(RotateN(l, 1)), RoundMatches(RotateN(l, 2));
    assert Rounds(l, 1) == m0 by { RoundsNext(l, 0, [], m0); }
    assert Rounds(l, 2) == m0 + m1 by { RoundsNext(l, 1, m0, m1); }
    RoundsNext(l, 2, m0 + m1, m2);
  }

  /** The rotation lists of the three rounds of four teams. */
  lemma FourTeamRotations(l: seq<int>)
    requires l == [2, 3, 4]
    ensures RotateN(l, 1) == [4, 2, 3]
    ensures RotateN(l, 2) == [3, 4, 2]
  {
  }

  /** A round of a three-entry rotation list: the anchor match, then slot 0. */
  lemma RoundOfThree(l: seq<int>)
    requires |l| == 3
    ensures RoundMatches(l) == Anchor(l) + PairAt(l, 0)
  {
    assert PairsBefore(l, 1) == PairAt(l, 0);
  }

  /** The matches of the three rounds of four teams. */
  lemma FourTeamRoundMatches()
    ensures RoundMatches([2, 3, 4]) == [Match(1, 4), Match(2, 3)]
    ensures RoundMatches([4, 2, 3]) == [Match(1, 3), Match(4, 2)]
    ensures RoundMatches([3, 4, 2]) == [Match(1, 2), Match(3, 4)]
  {
    RoundOfThree([2, 3, 4]);
    RoundOfThree([4, 2, 3]);
    RoundOfThree([3, 4, 2]);
  }

  /** The three rounds played from the four-team rotation list, one after the other. */
  lemma FourTeamRoundsFrom(l: seq<int>)
    requires l == [2, 3, 4]
    ensures Rounds(l, 3) == [Match(1, 4), Match(2, 3), Match(1, 3), Match(4, 2), Match(1, 2), Match(3, 4)]
  {
    ThreeRoundsJoined(l);
    FourTeamRotations(l);
    FourTeamRoundMatches();
  }

  /** The four-team match list, round by round. */
  lemma FourTeamRounds()
    ensures Flattened(4) == [Match(1, 4), Match(2, 3), Match(1, 3), Match(4, 2), Match(1, 2), Match(3, 4)]
  {
    assert InitialRotation(4) == [2, 3, 4];
    FourTeamRoundsFrom(InitialRotation(4));
  }

  /** The back-to-back positions of the four-team play order. */
  lemma FourTeamAdjacency(s: seq<Match>)
    requires s == [Match(1, 4), Match(2, 3), Match(1, 3), Match(4, 2), Match(1, 2), Match(3, 4)]
    ensures forall i :: BackToBack(s, i) <==> i == 1 || i == 3
  {
    assert !BackToBack(s, 0) && BackToBack(s, 1) && !BackToBack(s, 2) && BackToBack(s, 3) && !BackToBack(s, 4);
  }

  /**
   * Four teams: six matches, every pair once. No correction is applied, and
   * team 3 (matches 1 and 2) and team 2 (matches 3 and 4) still play back to back.
   */
  lemma FourTeams()
    ensures Schedule(4) == [Match(1, 4), Match(2, 3), Match(1, 3), Match(4, 2), Match(1, 2), Match(3, 4)]
    ensures forall i :: BackToBack(Schedule(4), i) <==> i == 1 || i == 3
  {
    FourTeamRounds();
    FourTeamAdjacency(Schedule(4));
  }

  /** A round of a five-entry rotation list: the anchor match, then slots 0 and 1. */
  lemma RoundOfFive(l: seq<int>)
    requires |l| == 5
    ensures RoundMatches(l) == Anchor(l) + PairAt(l, 0) + PairAt(l, 1)
  {
    assert PairsBefore(l, 1) == PairAt(l, 0);
  }

  /** The rotation lists of the five rounds of five teams. */
  lemma FiveTeamRotations(l: seq<int>)
    requires l == [2, 3, 4, 5, Bye]
    ensures RotateN(l, 1) == [Bye, 2, 3, 4, 5]
    ensures RotateN(l, 2) == [5, Bye, 2, 3, 4]
    ensures RotateN(l, 3) == [4, 5, Bye, 2, 3]
    ensures RotateN(l, 4) == [3, 4, 5, Bye, 2]
  {
  }

  /** The matches of the five rounds of five teams. */
  lemma FiveTeamRoundMatches()
    ensures RoundMatches([2, 3, 4, 5, Bye]) == [Match(2, 5), Match(3, 4)]
    ensures RoundMatches([Bye, 2, 3, 4, 5]) == [Match(1, 5), Match(2, 3)]
    ensures RoundMatches([5, Bye, 2, 3, 4]) == [Match(1, 4), Match(5, 3)]
    ensures RoundMatches([4, 5, Bye, 2, 3]) == [Match(1, 3), Match(4, 2)]
    ensures RoundMatches([3, 4, 5, Bye, 2]) == [Match(1, 2), Match(4, 5)]
  {
    RoundOfFive([2, 3, 4, 5, Bye]);
    RoundOfFive([Bye, 2, 3, 4, 5]);
    RoundOfFive([5, Bye, 2, 3, 4]);
    RoundOfFive([4, 5, Bye, 2, 3]);
    RoundOfFive([3, 4, 5, Bye, 2]);
  }

  /** Five rounds from any rotation list, as the concatenation of their matches. */
  lemma FiveRoundsJoined(l: seq<int>)
    requires |l| > 0
    ensures Rounds(l, 5) == RoundMatches(RotateN(l, 0)) + RoundMatches(RotateN(l, 1)) + RoundMatches(RotateN(l, 2))
                          + RoundMatches(RotateN(l, 3)) + RoundMatches(RotateN(l, 4))
  {
    var m0, m1, m2, m3, m4 := RoundMatches(RotateN(l, 0)), RoundMatches(RotateN(l, 1)),
      RoundMatches(RotateN(l, 2)), RoundMatches(RotateN(l, 3)), RoundMatches(RotateN(l, 4));
    assert Rounds(l, 1) == m0 by { RoundsNext(l, 0, [], m0); }
    assert Rounds(l, 2) == m0 + m1 by { RoundsNext(l, 1, m0, m1); }
    assert Rounds(l, 3) == m0 + m1 + m2 by { RoundsNext(l, 2, m0 + m1, m2); }
    assert Rounds(l, 4) == m0 + m1 + m2 + m3 by { RoundsNext(l, 3, m0 + m1 + m2, m3); }
    RoundsNext(l, 4, m0 + m1 + m2 + m3, m4);
  }

  /** The five rounds played from the five-team rotation list, one after the other. */
  lemma FiveTeamRoundsFrom(l: seq<int>)
    requires l == [2, 3, 4, 5, Bye]
    ensures Rounds(l, 5) == [Match(2, 5), Match(3, 4), Match(1, 5), Match(2, 3), Match(1, 4),
                             Match(5, 3), Match(1, 3), Match(4, 2), Match(1, 2), Match(4, 5)]
  {
    FiveRoundsJoined(l);
    FiveTeamRotations(l);
    FiveTeamRoundMatches();
  }

  /** The five-team match list before the correction, round by round. */
  lemma FiveTeamRounds()
    ensures Flattened(5) == [Match(2, 5), Match(3, 4), Match(1, 5), Match(2, 3), Match(1, 4),
                             Match(5, 3), Match(1, 3), Match(4, 2), Match(1, 2), Match(4, 5)]
  {
    assert InitialRotation(5) == [2, 3, 4, 5, Bye];
    FiveTeamRoundsFrom(InitialRotation(5));
  }

  /** The back-to-back positions of the five-team match list before the correction. */
  lemma UncorrectedAdjacency(s: seq<Match>)
    requires s == [Match(2, 5), Match(3, 4), Match(1, 5), Match(2, 3), Match(1, 4),
                   Match(5, 3), Match(1, 3), Match(4, 2), Match(1, 2), Match(4, 5)]
    ensures forall i :: BackToBack(s, i) <==> i == 5 || i == 7
  {
    assert !BackToBack(s, 0) && !BackToBack(s, 1) && !BackToBack(s, 2) && !BackToBack(s, 3) && !BackToBack(s, 4);
    assert BackToBack(s, 5) && !BackToBack(s, 6) && BackToBack(s, 7) && !BackToBack(s, 8);
  }

  /** The corrected five-team play order has no back-to-back positions. */
  lemma CorrectedAdjacency(s: seq<Match>)
    requires s == [Match(2, 5), Match(3, 4), Match(1, 5), Match(2, 3), Match(1, 4),
                   Match(5, 3), Match(4, 2), Match(1, 3), Match(4, 5), Match(1, 2)]
    ensures forall i :: !BackToBack(s, i)
  {
    assert !BackToBack(s, 0) && !BackToBack(s, 1) && !BackToBack(s, 2) && !BackToBack(s, 3) && !BackToBack(s, 4);
    assert !BackToBack(s, 5) && !BackToBack(s, 6) && !BackToBack(s, 7) && !BackToBack(s, 8);
  }

  /** Five teams, before the correction: team 3 plays matches 5 and 6, and team 2 matches 7 and 8, back to back. */
  lemma FiveTeamsUncorrected()
    ensures forall i :: BackToBack(Flattened(5), i) <==> i == 5 || i == 7
  {
    FiveTeamRounds();
    UncorrectedAdjacency(Flattened(5));
  }

  /** Five teams, after the correction: the play order, in which no team plays two matches in a row. */
  lemma FiveTeams()
    ensures Schedule(5) == [Match(2, 5), Match(3, 4), Match(1, 5), Match(2, 3), Match(1, 4),
                            Match(5, 3), Match(4, 2), Match(1, 3), Match(4, 5), Match(1, 2)]
    ensures forall i :: !BackToBack(Schedule(5), i)
  {
    FiveTeamRounds();
    FixUpOfTen(Flattened(5));
    CorrectedAdjacency(Schedule(5));
  }
}
