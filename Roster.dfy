/**
 * The roster form behind the Finish button: twenty name fields, read two by
 * two as the partners of a team, and the verdict the button handler reaches
 * on them.
 */
module Roster {

  /** A team of two partners, as typed into fields 2k and 2k + 1. */
  datatype Duo = Duo(person1: string, person2: string)

  /** The number of name fields on the form. */
  const FieldCount: nat := 20

  /** The form as it is set up: every name field empty. */
  function BlankForm(): (f: seq<string>)
    ensures |f| == FieldCount && forall i :: 0 <= i < |f| ==> f[i] == ""
  {
    seq(FieldCount, _ => "")
  }

  /** How many fields of `f` are not empty. */
  function FilledCount(f: seq<string>): nat
  {
    if f == [] then 0 else FilledCount(f[..|f| - 1]) + (if f[|f| - 1] != "" then 1 else 0)
  }

  /** The indices of the fields of `f` that are not empty. */
  ghost function Filled(f: seq<string>): set<int>
  {
    set i | 0 <= i < |f| && f[i] != ""
  }

  /**
   * The teams read from the fields: one per pair (2k, 2k + 1), stopping at the
   * first pair whose first field is empty. The second field may be empty.
   */
  function TeamsFrom(f: seq<string>): seq<Duo>
    requires |f| % 2 == 0
  {
    if f == [] || f[0] == "" then [] else [Duo(f[0], f[1])] + TeamsFrom(f[2..])
  }

  /** What pressing Finish leads to. */
  datatype Verdict =
    | CountError                    // no name at all, or an odd number of names
    | SingleTeam(roster: seq<Duo>)  // the team list holds exactly one team
    | Seeded(roster: seq<Duo>)      // the team list is handed to the seeding

  /**
   * The verdict on form `f` when the team list already holds `prior`: names
   * are counted first; the teams read are appended to `prior`; a list of
   * exactly one team is refused, any other is seeded.
   */
  function Judge(prior: seq<Duo>, f: seq<string>): Verdict
    requires |f| % 2 == 0
  {
    var c := FilledCount(f);
    if c == 0 || c % 2 == 1 then CountError
    else
      var roster := prior + TeamsFrom(f);
      if |roster| == 1 then SingleTeam(roster) else Seeded(roster)
  }

  /** Counting fields one at a time gives the number of non-empty fields. */
  lemma {:induction false} FilledCountIsSize(f: seq<string>)
    ensures FilledCount(f) == |Filled(f)|
    ensures FilledCount(f) <= |f|
  {
    if f != [] {
      var init := f[..|f| - 1];
      FilledCountIsSize(init);
      if f[|f| - 1] != "" {
        assert Filled(f) == Filled(init) + {|f| - 1};
      } else {
        assert Filled(f) == Filled(init);
      }
    }
  }

  /**
   * The teams read from `f` are the first `g` pairs, each with a non-empty
   * first field, where pair `g` is the first with an empty first field (or
   * there is none left).
   */
  lemma {:induction false} TeamsFromShape(f: seq<string>)
    requires |f| % 2 == 0
    ensures var t := TeamsFrom(f);
      && 2 * |t| <= |f|
      && (forall k :: 0 <= k < |t| ==> f[2 * k] != "" && t[k] == Duo(f[2 * k], f[2 * k + 1]))
      && (2 * |t| == |f| || f[2 * |t|] == "")
  {
    if f != [] && f[0] != "" {
      var rest := f[2..];
      TeamsFromShape(rest);
      var t := TeamsFrom(f);
      assert t == [Duo(f[0], f[1])] + TeamsFrom(rest);
      forall k | 0 < k < |t|
        ensures f[2 * k] != "" && t[k] == Duo(f[2 * k], f[2 * k + 1])
      {
        assert t[k] == TeamsFrom(rest)[k - 1];
        assert rest[2 * (k - 1)] == f[2 * k] && rest[2 * (k - 1) + 1] == f[2 * k + 1];
      }
      if 2 * |t| < |f| {
        assert rest[2 * (|t| - 1)] == f[2 * |t|];
      }
    }
  }

  /** `f` is a form filled in as intended: the first `g` pairs complete, every later field empty. */
  ghost predicate FilledInPairs(f: seq<string>, g: nat)
  {
    && 2 * g <= |f|
    && (forall i :: 0 <= i < 2 * g ==> f[i] != "")
    && (forall i :: 2 * g <= i < |f| ==> f[i] == "")
  }

  /** Counting is additive over the two parts of a form. */
  lemma {:induction false} FilledCountConcat(a: seq<string>, b: seq<string>)
    ensures FilledCount(a + b) == FilledCount(a) + FilledCount(b)
  {
    if b != [] {
      assert (a + b)[..|a + b| - 1] == a + b[..|b| - 1];
      FilledCountConcat(a, b[..|b| - 1]);
    } else {
      assert a + b == a;
    }
  }

  /** A form part with no empty field counts every field. */
  lemma {:induction false} FilledCountFull(a: seq<string>)
    requires forall i :: 0 <= i < |a| ==> a[i] != ""
    ensures FilledCount(a) == |a|
  {
    if a != [] {
      FilledCountFull(a[..|a| - 1]);
    }
  }

  /** An empty form part counts nothing. */
  lemma {:induction false} FilledCountBlank(a: seq<string>)
    requires forall i :: 0 <= i < |a| ==> a[i] == ""
    ensures FilledCount(a) == 0
  {
    if a != [] {
      FilledCountBlank(a[..|a| - 1]);
    }
  }

  /** On a form filled in as intended, the non-empty fields are exactly the first 2g. */
  lemma FilledInPairsCount(f: seq<string>, g: nat)
    requires FilledInPairs(f, g)
    ensures FilledCount(f) == 2 * g
  {
    FilledCountFull(f[..2 * g]);
    FilledCountBlank(f[2 * g..]);
    assert f == f[..2 * g] + f[2 * g..];
    FilledCountConcat(f[..2 * g], f[2 * g..]);
  }

  /**
   * On a fresh team list, a form filled in as intended with `g` teams is
   * refused when it is empty or holds one team, and otherwise seeds exactly
   * those `g` teams, in form order.
   */
  lemma FilledInPairsVerdict(f: seq<string>, g: nat)
    requires |f| % 2 == 0 && FilledInPairs(f, g)
    ensures g == 0 ==> Judge([], f) == CountError
    ensures g == 1 ==> Judge([], f) == SingleTeam([Duo(f[0], f[1])])
    ensures g >= 2 ==>
              && Judge([], f).Seeded?
              && |Judge([], f).roster| == g
              && forall k :: 0 <= k < g ==> Judge([], f).roster[k] == Duo(f[2 * k], f[2 * k + 1])
  {
    FilledInPairsCount(f, g);
    TeamsFromShape(f);
    var t := TeamsFrom(f);
    if |t| < g {
      assert false;
    }
    if 2 * g < |f| {
      assert f[2 * g] == "";
    }
    assert |t| == g;
    if g == 1 {
      assert t == [Duo(f[0], f[1])];
    }
  }

  /**
   * The verdict, described without `Judge`'s own tests: the count error is
   * exactly no non-empty field or an odd number of non-empty fields; otherwise the
   * team list is the one already listed followed by one team per pair
   * (2k, 2k + 1), up to the first pair whose first field is empty, and it is
   * refused exactly when it holds one team.
   */
  lemma SeededRoster(prior: seq<Duo>, f: seq<string>)
    requires |f| % 2 == 0
    ensures Judge(prior, f).CountError? <==> |Filled(f)| == 0 || |Filled(f)| % 2 == 1
    ensures !Judge(prior, f).CountError? ==>
              var r := Judge(prior, f).roster;
              && |prior| <= |r|
              && r[..|prior|] == prior
              && var read := r[|prior|..];
              && 2 * |read| <= |f|
              && (forall k :: 0 <= k < |read| ==> f[2 * k] != "" && read[k] == Duo(f[2 * k], f[2 * k + 1]))
              && (2 * |read| == |f| || f[2 * |read|] == "")
              && (Judge(prior, f).SingleTeam? <==> |r| == 1)
  {
    FilledCountIsSize(f);
    TeamsFromShape(f);
    if !Judge(prior, f).CountError? {
      var t := TeamsFrom(f);
      var r := Judge(prior, f).roster;
      assert r == prior + t;
      assert r[..|prior|] == prior;
      assert r[|prior|..] == t;
    }
  }

  /**
   * An empty first field ends the reading even when names follow it: two
   * names in fields 1 and 2 pass the count and seed a tournament of no teams.
   */
  lemma NoTeamsSeeded()
    ensures Judge([], ["", "a", "b", ""] + BlankForm()[4..]) == Seeded([])
  {
    var f := ["", "a", "b", ""] + BlankForm()[4..];
    FilledCountIsSize(f);
    assert Filled(f) == {1, 2};
  }

  /** An empty second field does not end a team: four names can make three teams. */
  lemma ThreeTeamsFromFourNames()
    ensures Judge([], ["a", "", "b", "", "c", "d"] + BlankForm()[6..])
         == Seeded([Duo("a", ""), Duo("b", ""), Duo("c", "d")])
  {
    var f := ["a", "", "b", "", "c", "d"] + BlankForm()[6..];
    FilledCountIsSize(f);
    assert Filled(f) == {0, 2, 4, 5};
    assert |Filled(f)| == 4;
    assert FilledCount(f) == 4;
    var r1 := f[2..];
    var r2 := r1[2..];
    var r3 := r2[2..];
    assert r3 == BlankForm()[6..];
    assert TeamsFrom(r3) == [];
    assert TeamsFrom(r2) == [Duo("c", "d")];
    assert TeamsFrom(r1) == [Duo("b", ""), Duo("c", "d")];
  }

  /**
   * The team list is kept after a one-team refusal: pressing Finish again on
   * the same form lists the team twice and seeds it against itself.
   */
  lemma SecondPressSeedsOneTeamTwice()
    ensures Judge([], ["a", "b"] + BlankForm()[2..]) == SingleTeam([Duo("a", "b")])
    ensures Judge([Duo("a", "b")], ["a", "b"] + BlankForm()[2..]) == Seeded([Duo("a", "b"), Duo("a", "b")])
  {
    var f := ["a", "b"] + BlankForm()[2..];
    FilledCountIsSize(f);
    assert Filled(f) == {0, 1};
    assert f[2..] == BlankForm()[2..];
    assert TeamsFrom(f[2..]) == [];
  }
}
