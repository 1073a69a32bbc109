/**
 * The scheduler's state and its two operations: the Finish button's handler,
 * which reads the form into the team list, and `makeSeed`, which turns the
 * team list into the play order of a single round robin.
 */
module Scheduler {
  import opened Rotation
  import opened Pairing
  import opened Sequencing
  import opened Roster

  class BadmintonScheduler {
    /** The texts of the twenty name fields. */
    var fields: seq<string>
    /** The teams read so far; a team's number is its position plus one. */
    var partnerList: seq<Duo>
    /** The play order computed by the last seeding. */
    var matchList: seq<Match>
    /** The text of the error label. */
    var errorText: string

    /** The form always has its twenty fields. */
    ghost predicate Valid()
      reads this
    {
      |fields| == FieldCount
    }

    /** A new scheduler: an empty form, no team, no match and no error shown. */
    constructor()
      ensures Valid()
      ensures fields == BlankForm() && partnerList == [] && matchList == [] && errorText == ""
    {
      fields := BlankForm();
      partnerList := [];
      matchList := [];
      errorText := "";
    }

    /** A name typed into field `k`. */
    method Enter(k: nat, name: string)
      requires Valid() && k < FieldCount
      modifies this
      ensures Valid()
      ensures fields == old(fields)[k := name]
      ensures partnerList == old(partnerList) && matchList == old(matchList) && errorText == old(errorText)
    {
      fields := fields[k := name];
    }

    /** The form is rebuilt empty, the team list emptied and the error label cleared; the play order stays. */
    method Reset()
      modifies this
      ensures Valid()
      ensures fields == BlankForm() && partnerList == [] && errorText == ""
      ensures matchList == old(matchList)
    {
      fields := BlankForm();
      partnerList := [];
      errorText := "";
    }

    /** The rotation list before the first round of `n` teams: 2..n, then the bye when n is odd. */
    static method BuildRotation(n: nat) returns (rotateList: seq<int>)
      ensures rotateList == InitialRotation(n)
    {
      rotateList := [];
      var i := 2;
      while i <= n
        invariant 2 <= i <= if n < 2 then 2 else n + 1
        invariant rotateList == seq(i - 2, k => k + 2)
      {
        rotateList := rotateList + [i];
        i := i + 1;
      }
      if n % 2 != 0 {
        rotateList := rotateList + [Bye];
      }
    }

    /** Appends the matches of the round played with `rotateList`: the anchor match, then slot by slot. */
    method AppendRound(rotateList: seq<int>)
      requires |rotateList| > 0
      modifies this`matchList
      ensures matchList == old(matchList) + RoundMatches(rotateList)
    {
      var last := |rotateList| - 1;
      AnchorAppended(matchList, rotateList);
      if rotateList[last] != Bye {
        matchList := matchList + [Match(1, rotateList[last])];
      }
      ghost var start := matchList;
      assert start + PairsBefore(rotateList, 0) == start;
      var x := 0;
      while x < (|rotateList| - 1) / 2
        invariant 0 <= x <= (|rotateList| - 1) / 2
        invariant matchList == start + PairsBefore(rotateList, x)
      {
        var y := |rotateList| - 2 - x;
        SlotAppended(start, rotateList, x);
        if rotateList[x] != Bye && rotateList[y] != Bye {
          matchList := matchList + [Match(rotateList[x], rotateList[y])];
        }
        x := x + 1;
      }
      RoundJoined(old(matchList), rotateList);
    }

    /** The five-team correction, in place: the match at 8 moves to the end, then the match at 6 moves to 7. */
    method CorrectFiveTeamOrder()
      requires |matchList| >= 9
      modifies this`matchList
      ensures matchList == FixUp(old(matchList))
    {
      var moved := matchList[8];
      matchList := RemoveAt(matchList, 8);
      matchList := matchList + [moved];
      moved := matchList[6];
      matchList := RemoveAt(matchList, 6);
      matchList := InsertAt(matchList, 7, moved);
    }

    /**
     * The round loop of the seeding: `roundDiv` rounds starting from the
     * rotation list `initial`; each appends its matches to the match list,
     * then rotates the list right by one.
     */
    method PlayRounds(initial: seq<int>, roundDiv: int)
      requires roundDiv <= 0 || |initial| > 0
      modifies this`matchList
      ensures matchList == old(matchList) + Rounds(initial, if roundDiv < 0 then 0 else roundDiv)
    {
      var rotateList := initial;
      var j := 0;
      while j < roundDiv
        invariant 0 <= j <= if roundDiv < 0 then 0 else roundDiv
        invariant j == 0 || |initial| > 0
        invariant rotateList == RotateN(initial, j)
        invariant matchList == old(matchList) + Rounds(initial, j)
      {
        ghost var before, played := matchList, rotateList;
        AppendRound(rotateList);
        assert matchList == old(matchList) + Rounds(initial, j + 1) by {
          assert matchList == before + RoundMatches(played);
          RoundAppended(old(matchList), initial, j);
        }
        var end := rotateList[|rotateList| - 1];
        rotateList := rotateList[..|rotateList| - 1];
        rotateList := [end] + rotateList;
        assert rotateList == Rotate(played);
        j := j + 1;
      }
      assert j == if roundDiv < 0 then 0 else roundDiv;
    }

    /** The match list is started afresh and filled with every round of `n` teams, in order. */
    method SeedRounds(n: nat)
      modifies this`matchList
      ensures matchList == Flattened(n)
    {
      matchList := [];
      var roundDiv := if n % 2 == 0 then n - 1 else n;
      var rotateList := BuildRotation(n);
      PlayRounds(rotateList, roundDiv);
    }

    /**
     * Seeds the listed teams: round by round with the circle method, then the
     * five-team correction, after which the form is reset. The play order is
     * `Schedule(n)` for the `n` listed teams, so every two teams meet exactly
     * once (`ScheduleCount`) and every match names two listed teams (`ScheduleValid`).
     */
    method MakeSeed()
      modifies this
      ensures matchList == Schedule(|old(partnerList)|)
      ensures Valid() && fields == BlankForm() && partnerList == [] && errorText == ""
    {
      var n := |partnerList|;
      SeedRounds(n);
      ScheduleSteps(n);
      if n == 5 {
        CorrectFiveTeamOrder();
      }
      Reset();
    }

    /** The first loop of the Finish button: the number of fields that are not empty. */
    static method CountNames(fields: seq<string>) returns (i: nat)
      ensures i == FilledCount(fields)
    {
      i := 0;
      var x := 0;
      while x < |fields|
        invariant 0 <= x <= |fields|
        invariant i == FilledCount(fields[..x])
      {
        assert fields[..x + 1][..x] == fields[..x];
        if fields[x] != "" {
          i := i + 1;
        }
        x := x + 1;
      }
      assert fields[..x] == fields;
    }

    /**
     * The second loop of the Finish button: pair by pair, a team is appended
     * for each pair whose first field is not empty; the first pair whose first
     * field is empty ends the reading.
     */
    method ReadTeams()
      requires Valid()
      modifies this`partnerList
      ensures partnerList == old(partnerList) + TeamsFrom(fields)
    {
      var j := 0;
      while j < |fields|
        invariant j >= 0 && j % 2 == 0
        invariant j <= |fields| ==> partnerList + TeamsFrom(fields[j..]) == old(partnerList) + TeamsFrom(fields)
        invariant j > |fields| ==> partnerList == old(partnerList) + TeamsFrom(fields)
        decreases |fields| - j
      {
        if fields[j] == "" {
          j := j + |fields|;
        } else {
          assert fields[j..][2..] == fields[j + 2..];
          partnerList := partnerList + [Duo(fields[j], fields[j + 1])];
        }
        j := j + 2;
      }
      if j == |fields| {
        assert fields[j..] == [];
      }
    }

    /**
     * The Finish button: counts the names on the form, reads the teams into the
     * team list, and seeds it unless it holds exactly one team. The outcome is
     * the one `Judge` gives for the team list and form it started from.
     */
    method Finish()
      requires Valid()
      modifies this
      ensures Valid()
      ensures Judge(old(partnerList), old(fields)).CountError? ==>
        && errorText == "Error" && partnerList == old(partnerList)
        && fields == old(fields) && matchList == old(matchList)
      ensures Judge(old(partnerList), old(fields)).SingleTeam? ==>
        && errorText == "Error" && partnerList == Judge(old(partnerList), old(fields)).roster
        && fields == old(fields) && matchList == old(matchList)
      ensures Judge(old(partnerList), old(fields)).Seeded? ==>
        && matchList == Schedule(|Judge(old(partnerList), old(fields)).roster|)
        && errorText == "" && partnerList == [] && fields == BlankForm()
    {
      var i := CountNames(fields);
      if i == 0 || i % 2 == 1 {
        errorText := "Error";
      } else {
        ReadTeams();
        if |partnerList| == 1 {
          errorText := "Error";
        } else {
          MakeSeed();
        }
      }
    }
  }
}
