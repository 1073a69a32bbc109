/**
 * One round of the circle method and the flattened sequence of all rounds,
 * as `makeSeed` emits them into its match list before any reordering.
 */
module Pairing {
  import opened Rotation

  /** A match between two teams, identified by their 1-based roster positions. */
  datatype Match = Match(first: int, second: int)

  /** The anchor match of a round: team 1 against the last entry of the rotation list, unless that entry is the bye. */
  function Anchor(l: seq<int>): seq<Match>
    requires |l| > 0
  {
    if l[|l| - 1] != Bye then [Match(1, l[|l| - 1])] else []
  }

  /** The match of slot `x`: the entries at `x` and `|l| - 2 - x`, or nothing when either one is the bye. */
  function PairAt(l: seq<int>, x: nat): seq<Match>
    requires x < (|l| - 1) / 2
  {
    if l[x] != Bye && l[|l| - 2 - x] != Bye then [Match(l[x], l[|l| - 2 - x])] else []
  }

  /** The matches of slots 0..x-1, in slot order. */
  function PairsBefore(l: seq<int>, x: nat): seq<Match>
    requires x <= (|l| - 1) / 2
  {
    if x == 0 then [] else PairsBefore(l, x - 1) + PairAt(l, x - 1)
  }

  /** All matches of the round played with rotation list `l`: the anchor match, then slot by slot. */
  function RoundMatches(l: seq<int>): seq<Match>
    requires |l| > 0
  {
    Anchor(l) + PairsBefore(l, (|l| - 1) / 2)
  }

  /** The anchor match, if any, appended after whatever list `p` came before. */
  lemma AnchorAppended(p: seq<Match>, l: seq<int>)
    requires |l| > 0
    ensures p + Anchor(l) == if l[|l| - 1] != Bye then p + [Match(1, l[|l| - 1])] else p
  {
    if l[|l| - 1] == Bye {
      assert p + [] == p;
    }
  }

  /** One more slot appends its match to those of the slots before, after whatever list `p` came before, unless the slot holds the bye. */
  lemma SlotAppended(p: seq<Match>, l: seq<int>, x: nat)
    requires x < (|l| - 1) / 2
    ensures var y := |l| - 2 - x; l[x] != Bye && l[y] != Bye ==> p + PairsBefore(l, x) + [Match(l[x], l[y])] == p + PairsBefore(l, x + 1)
    ensures var y := |l| - 2 - x; l[x] == Bye || l[y] == Bye ==> p + PairsBefore(l, x) == p + PairsBefore(l, x + 1)
  {
    var prev, slot := PairsBefore(l, x), PairAt(l, x);
    assert PairsBefore(l, x + 1) == prev + slot;
    assert p + prev + slot == p + (prev + slot);
    if slot == [] {
      assert prev + slot == prev;
    }
  }

  /** Once every slot is done, the anchor match and the slots' matches, after whatever list `p` came before, are the whole round. */
  lemma RoundJoined(p: seq<Match>, l: seq<int>)
    requires |l| > 0
    ensures p + Anchor(l) + PairsBefore(l, (|l| - 1) / 2) == p + RoundMatches(l)
  {
    var anchor, slots := Anchor(l), PairsBefore(l, (|l| - 1) / 2);
    assert RoundMatches(l) == anchor + slots;
    assert p + anchor + slots == p + (anchor + slots);
  }

  /** The matches of the first `r` rounds, round by round, starting from the rotation list `l`. */
  function Rounds(l: seq<int>, r: nat): seq<Match>
    requires r == 0 || |l| > 0
  {
    if r == 0 then [] else Rounds(l, r - 1) + RoundMatches(RotateN(l, r - 1))
  }

  /** One more round: its matches are appended, after whatever list `p` came before, to those of the rounds before. */
  lemma RoundAppended(p: seq<Match>, l: seq<int>, j: nat)
    requires |l| > 0
    ensures p + Rounds(l, j) + RoundMatches(RotateN(l, j)) == p + Rounds(l, j + 1)
  {
    var prev, round := Rounds(l, j), RoundMatches(RotateN(l, j));
    assert Rounds(l, j + 1) == prev + round;
    assert p + prev + round == p + (prev + round);
  }

  /** The rounds up to `j + 1`, from those up to `j` and the matches of round `j`. */
  lemma RoundsNext(l: seq<int>, j: nat, prev: seq<Match>, round: seq<Match>)
    requires |l| > 0
    requires Rounds(l, j) == prev && RoundMatches(RotateN(l, j)) == round
    ensures Rounds(l, j + 1) == prev + round
  {
  }

  /** Counting a pair over `r` rounds: the count over the first r - 1 rounds plus the count in the last one. */
  lemma RoundsCountStep(l: seq<int>, r: nat, a: int, b: int)
    requires |l| > 0 && r > 0
    ensures Count(Rounds(l, r), a, b) == Count(Rounds(l, r - 1), a, b) + Count(RoundMatches(RotateN(l, r - 1)), a, b)
  {
    var prev, round := Rounds(l, r - 1), RoundMatches(RotateN(l, r - 1));
    assert Rounds(l, r) == prev + round;
    CountConcat(prev, round, a, b);
  }

  /** A pair that meets in round k only, counted over `r` rounds: once if k < r, not at all otherwise. */
  lemma RoundsCountOnce(l: seq<int>, r: nat, a: int, b: int, k: int)
    requires |l| > 0 && 0 < r
    requires Count(Rounds(l, r - 1), a, b) == (if k < r - 1 then 1 else 0)
    requires Count(RoundMatches(RotateN(l, r - 1)), a, b) == (if r - 1 == k then 1 else 0)
    ensures Count(Rounds(l, r), a, b) == (if k < r then 1 else 0)
  {
    RoundsCountStep(l, r, a, b);
  }

  /** A pair that meets in round `k` and in no other round is counted once over `r` rounds if k < r, and otherwise not at all. */
  lemma {:induction false} RoundsCountUpTo(l: seq<int>, r: nat, a: int, b: int, k: int)
    requires |l| > 0 && 0 <= k
    requires forall j :: 0 <= j < r ==> Count(RoundMatches(RotateN(l, j)), a, b) == if j == k then 1 else 0
    ensures Count(Rounds(l, r), a, b) == if k < r then 1 else 0
  {
    if r > 0 {
      RoundsCountUpTo(l, r - 1, a, b, k);
      RoundsCountOnce(l, r, a, b, k);
    }
  }

  /** After `r` rounds the list holds the matches of the first r - 1 rounds and those of the last one. */
  lemma RoundsLengthStep(l: seq<int>, r: nat)
    requires |l| > 0 && r > 0
    ensures |Rounds(l, r)| == |Rounds(l, r - 1)| + |RoundMatches(RotateN(l, r - 1))|
  {
    var prev, round := Rounds(l, r - 1), RoundMatches(RotateN(l, r - 1));
    assert Rounds(l, r) == prev + round;
  }

  /** When the first r - 1 rounds and the last one hold valid matches only, so do all `r` rounds. */
  lemma RoundsValidStep(l: seq<int>, r: nat, n: int)
    requires |l| > 0 && r > 0
    requires AllValid(Rounds(l, r - 1), n) && AllValid(RoundMatches(RotateN(l, r - 1)), n)
    ensures AllValid(Rounds(l, r), n)
  {
    var prev, round := Rounds(l, r - 1), RoundMatches(RotateN(l, r - 1));
    assert Rounds(l, r) == prev + round;
    AllValidConcat(prev, round, n);
  }

  /** The match list of `n` teams once every round has been played, before the five-team reordering. */
  function Flattened(n: nat): seq<Match>
  {
    var r := RoundDiv(n);
    Rounds(InitialRotation(n), if r < 0 then 0 else r)
  }

  /** `mt` is a match between `a` and `b`, in either order. */
  predicate Covers(mt: Match, a: int, b: int)
  {
    (mt.first == a && mt.second == b) || (mt.first == b && mt.second == a)
  }

  /** `t` plays in `mt`. */
  predicate Involves(mt: Match, t: int)
  {
    mt.first == t || mt.second == t
  }

  /** How many matches of `s` are between `a` and `b`, in either order. */
  function Count(s: seq<Match>, a: int, b: int): nat
  {
    if s == [] then 0
    else Count(s[..|s| - 1], a, b) + (if Covers(s[|s| - 1], a, b) then 1 else 0)
  }

  /** How many matches of `s` team `t` plays in. */
  function Involvements(s: seq<Match>, t: int): nat
  {
    if s == [] then 0
    else Involvements(s[..|s| - 1], t) + (if Involves(s[|s| - 1], t) then 1 else 0)
  }

  /** A match that a roster of `n` teams can play: two different teams in 1..n, team 1 only ever named first. */
  predicate ValidMatch(mt: Match, n: int)
  {
    1 <= mt.first <= n && 2 <= mt.second <= n && mt.first != mt.second
  }

  /** Every match of `s` is valid for `n` teams. */
  ghost predicate AllValid(s: seq<Match>, n: int)
  {
    forall i :: 0 <= i < |s| ==> ValidMatch(s[i], n)
  }

  lemma AllValidConcat(s: seq<Match>, t: seq<Match>, n: int)
    requires AllValid(s, n) && AllValid(t, n)
    ensures AllValid(s + t, n)
  {
    forall i | 0 <= i < |s + t|
      ensures ValidMatch((s + t)[i], n)
    {
      if i >= |s| {
        assert (s + t)[i] == t[i - |s|];
      }
    }
  }

  /** Counting is additive over concatenation. */
  lemma {:induction false} CountConcat(s: seq<Match>, t: seq<Match>, a: int, b: int)
    ensures Count(s + t, a, b) == Count(s, a, b) + Count(t, a, b)
  {
    if t != [] {
      assert (s + t)[..|s + t| - 1] == s + t[..|t| - 1];
      CountConcat(s, t[..|t| - 1], a, b);
    } else {
      assert s + t == s;
    }
  }

  lemma {:induction false} InvolvementsConcat(s: seq<Match>, t: seq<Match>, u: int)
    ensures Involvements(s + t, u) == Involvements(s, u) + Involvements(t, u)
  {
    if t != [] {
      assert (s + t)[..|s + t| - 1] == s + t[..|t| - 1];
      InvolvementsConcat(s, t[..|t| - 1], u);
    } else {
      assert s + t == s;
    }
  }

  /** The match of slot `y` is between `a` and `b` exactly when its two entries are `a` and `b`, in either order. */
  lemma PairAtCount(l: seq<int>, y: nat, a: int, b: int)
    requires y < (|l| - 1) / 2
    requires a != Bye && b != Bye
    ensures Count(PairAt(l, y), a, b)
      == if (l[y] == a && l[|l| - 2 - y] == b) || (l[y] == b && l[|l| - 2 - y] == a) then 1 else 0
  {
  }

  /** Team `t` plays in the anchor match exactly when the last entry is not the bye and `t` is team 1 or that entry. */
  lemma AnchorInvolvements(l: seq<int>, t: int)
    requires |l| > 0
    ensures Involvements(Anchor(l), t) == if l[|l| - 1] != Bye && (t == 1 || l[|l| - 1] == t) then 1 else 0
  {
    if l[|l| - 1] != Bye {
      assert Anchor(l) == [Match(1, l[|l| - 1])];
      assert [Match(1, l[|l| - 1])][..0] == [];
    }
  }

  /** Team `t` plays in the match of slot `y` exactly when it holds one of the slot's two entries and neither is the bye. */
  lemma PairAtInvolvements(l: seq<int>, y: nat, t: int)
    requires y < (|l| - 1) / 2
    requires t != Bye
    ensures Involvements(PairAt(l, y), t)
      == if (l[y] == t || l[|l| - 2 - y] == t) && l[y] != Bye && l[|l| - 2 - y] != Bye then 1 else 0
  {
  }

  /**
   * Counting one pair over the first `x` slots: with `a` at index `pa` and
   * `b` at index `pb` (an index equal to |l| meaning absent), the slots meet
   * them exactly once, in slot min(pa, pb), when their indices add up to |l| - 2.
   */
  lemma PairsBeforeCount(l: seq<int>, x: nat, a: int, b: int, pa: int, pb: int)
    requires x <= (|l| - 1) / 2
    requires a != Bye && b != Bye
    requires 0 <= pa <= |l| && 0 <= pb <= |l| && pa != pb
    requires Locates(l, a, pa) && Locates(l, b, pb)
    ensures Count(PairsBefore(l, x), a, b) == if pa + pb == |l| - 2 && (pa < x || pb < x) then 1 else 0
    decreases x, 1
  {
    if x > 0 {
      PairsBeforeCountAfter(l, x, a, b, pa, pb);
    }
  }

  /** `PairsBeforeCount` for at least one slot, by induction on the slots. */
  lemma PairsBeforeCountAfter(l: seq<int>, x: nat, a: int, b: int, pa: int, pb: int)
    requires 0 < x <= (|l| - 1) / 2
    requires a != Bye && b != Bye
    requires 0 <= pa <= |l| && 0 <= pb <= |l| && pa != pb
    requires Locates(l, a, pa) && Locates(l, b, pb)
    ensures Count(PairsBefore(l, x), a, b) == if pa + pb == |l| - 2 && (pa < x || pb < x) then 1 else 0
    decreases x, 0
  {
    var y, z := x - 1, |l| - 2 - (x - 1);
    var before, here := Count(PairsBefore(l, y), a, b), Count(PairAt(l, y), a, b);
    assert before == if pa + pb == |l| - 2 && (pa < y || pb < y) then 1 else 0 by {
      PairsBeforeCount(l, y, a, b, pa, pb);
    }
    assert here == if (l[y] == a && l[z] == b) || (l[y] == b && l[z] == a) then 1 else 0 by {
      PairAtCount(l, y, a, b);
    }
    assert Count(PairsBefore(l, x), a, b) == before + here by {
      assert PairsBefore(l, x) == PairsBefore(l, y) + PairAt(l, y);
      CountConcat(PairsBefore(l, y), PairAt(l, y), a, b);
    }
    assert l[y] == a <==> y == pa;
    assert l[z] == b <==> z == pb;
    assert l[y] == b <==> y == pb;
    assert l[z] == a <==> z == pa;
  }

  /**
   * Counting one pair over a whole round: team 1 meets `b` in the anchor match
   * when `b` is last; two other teams meet in the slot their indices share.
   */
  lemma RoundCount(l: seq<int>, a: int, b: int, pa: int, pb: int)
    requires |l| > 0 && 1 <= a < b
    requires 0 <= pa <= |l| && 0 <= pb <= |l| && pa != pb
    requires Locates(l, a, pa) && Locates(l, b, pb)
    requires a == 1 ==> pa == |l|
    ensures Count(RoundMatches(l), a, b)
      == if a == 1 then (if pb == |l| - 1 then 1 else 0)
         else if pa + pb == |l| - 2 && (pa < (|l| - 1) / 2 || pb < (|l| - 1) / 2) then 1 else 0
  {
    var k := (|l| - 1) / 2;
    CountConcat(Anchor(l), PairsBefore(l, k), a, b);
    PairsBeforeCount(l, k, a, b, pa, pb);
    assert l[|l| - 1] == b <==> |l| - 1 == pb;
  }

  /**
   * The length of the first `x` slots' matches when the bye sits at index `q`
   * (`q == |l|` when there is none): one slot is skipped once the bye's slot is passed.
   */
  lemma {:induction false} PairsBeforeLength(l: seq<int>, x: nat, q: int)
    requires x <= (|l| - 1) / 2
    requires 0 <= q <= |l| && Locates(l, Bye, q)
    ensures |PairsBefore(l, x)| == x - (if q < x || (q <= |l| - 2 && |l| - 2 - q < x) then 1 else 0)
  {
    if x > 0 {
      var y := x - 1;
      PairsBeforeLength(l, y, q);
      assert l[y] == Bye <==> y == q;
      assert l[|l| - 2 - y] == Bye <==> |l| - 2 - y == q;
    }
  }

  /**
   * Team `t` at index `p` (|l| when absent) plays in the first `x` slots once
   * its slot is passed, unless the bye, at index `q` (|l| when absent), is its opposite entry.
   */
  lemma PairsBeforeInvolvements(l: seq<int>, x: nat, t: int, p: int, q: int)
    requires x <= (|l| - 1) / 2
    requires t != Bye && 0 <= p <= |l| && Locates(l, t, p)
    requires 0 <= q <= |l| && Locates(l, Bye, q)
    ensures Involvements(PairsBefore(l, x), t)
      == if p <= |l| - 2 && (p < x || |l| - 2 - p < x) && p + q != |l| - 2 then 1 else 0
    decreases x, 1
  {
    if x > 0 {
      PairsBeforeInvolvementsAfter(l, x, t, p, q);
    }
  }

  /** `PairsBeforeInvolvements` for at least one slot, by induction on the slots. */
  lemma PairsBeforeInvolvementsAfter(l: seq<int>, x: nat, t: int, p: int, q: int)
    requires 0 < x <= (|l| - 1) / 2
    requires t != Bye && 0 <= p <= |l| && Locates(l, t, p)
    requires 0 <= q <= |l| && Locates(l, Bye, q)
    ensures Involvements(PairsBefore(l, x), t)
      == if p <= |l| - 2 && (p < x || |l| - 2 - p < x) && p + q != |l| - 2 then 1 else 0
    decreases x, 0
  {
    var y, z := x - 1, |l| - 2 - (x - 1);
    var before, here := Involvements(PairsBefore(l, y), t), Involvements(PairAt(l, y), t);
    assert before == if p <= |l| - 2 && (p < y || |l| - 2 - p < y) && p + q != |l| - 2 then 1 else 0 by {
      PairsBeforeInvolvements(l, y, t, p, q);
    }
    assert here == if (l[y] == t || l[z] == t) && l[y] != Bye && l[z] != Bye then 1 else 0 by {
      PairAtInvolvements(l, y, t);
    }
    assert Involvements(PairsBefore(l, x), t) == before + here by {
      assert PairsBefore(l, x) == PairsBefore(l, y) + PairAt(l, y);
      InvolvementsConcat(PairsBefore(l, y), PairAt(l, y), t);
    }
    assert l[y] == t <==> y == p;
    assert l[z] == t <==> z == p;
    assert l[y] == Bye <==> y == q;
    assert l[z] == Bye <==> z == q;
  }

  /** With distinct entries, each a team of 2..n or the bye, every slot's match is valid. */
  lemma {:induction false} PairsBeforeValid(l: seq<int>, x: nat, n: int)
    requires x <= (|l| - 1) / 2
    requires forall i :: 0 <= i < |l| ==> l[i] == Bye || 2 <= l[i] <= n
    requires forall i, k :: 0 <= i < k < |l| ==> l[i] != l[k]
    ensures AllValid(PairsBefore(l, x), n)
  {
    if x > 0 {
      PairsBeforeValid(l, x - 1, n);
      assert x - 1 < |l| - 2 - (x - 1);
    }
  }

  /** A round has (|l| - 1) / 2 matches, plus one when there is no bye. */
  lemma RoundLength(l: seq<int>, q: int)
    requires |l| % 2 == 1
    requires 0 <= q <= |l| && Locates(l, Bye, q)
    ensures |RoundMatches(l)| == (|l| - 1) / 2 + (if q == |l| then 1 else 0)
  {
    PairsBeforeLength(l, (|l| - 1) / 2, q);
    assert l[|l| - 1] == Bye <==> |l| - 1 == q;
  }

  /** With distinct entries, each a team of 2..n or the bye, every match of the round is valid. */
  lemma RoundValid(l: seq<int>, n: int)
    requires |l| > 0
    requires forall i :: 0 <= i < |l| ==> l[i] == Bye || 2 <= l[i] <= n
    requires forall i, k :: 0 <= i < k < |l| ==> l[i] != l[k]
    ensures AllValid(RoundMatches(l), n)
  {
    PairsBeforeValid(l, (|l| - 1) / 2, n);
  }

  /**
   * Who plays in a round whose bye sits at `q`: team 1 (absent from the list)
   * plays unless the bye is last; the team at `p` plays unless it faces the bye.
   * Either way, nobody plays twice.
   */
  lemma RoundInvolvements(l: seq<int>, t: int, p: int, q: int)
    requires |l| % 2 == 1
    requires t != Bye && 0 <= p <= |l| && Locates(l, t, p) && (t == 1 <==> p == |l|)
    requires 0 <= q <= |l| && Locates(l, Bye, q)
    ensures Involvements(RoundMatches(l), t)
      == if t == 1 then (if q == |l| - 1 then 0 else 1)
         else if p + q == |l| - 2 then 0 else 1
  {
    var k := (|l| - 1) / 2;
    var anchor, slots := Involvements(Anchor(l), t), Involvements(PairsBefore(l, k), t);
    assert Involvements(RoundMatches(l), t) == anchor + slots by {
      InvolvementsConcat(Anchor(l), PairsBefore(l, k), t);
    }
    assert slots == if p <= |l| - 2 && p + q != |l| - 2 then 1 else 0 by {
      PairsBeforeInvolvements(l, k, t, p, q);
    }
    assert anchor == if l[|l| - 1] != Bye && (t == 1 || l[|l| - 1] == t) then 1 else 0 by {
      AnchorInvolvements(l, t);
    }
    assert l[|l| - 1] == Bye <==> |l| - 1 == q;
    assert l[|l| - 1] == t <==> |l| - 1 == p;
  }

  /** A match between `a` and `b` is a match between `b` and `a`. */
  lemma {:induction false} CountSymmetric(s: seq<Match>, a: int, b: int)
    ensures Count(s, a, b) == Count(s, b, a)
  {
    if s != [] {
      CountSymmetric(s[..|s| - 1], a, b);
    }
  }

  /** A list of valid matches holds no match between `a` and `b` unless they are two different teams of 1..n. */
  lemma {:induction false} CountOutsideRoster(s: seq<Match>, n: int, a: int, b: int)
    requires AllValid(s, n)
    requires !(1 <= a <= n && 1 <= b <= n && a != b)
    ensures Count(s, a, b) == 0
  {
    if s != [] {
      CountOutsideRoster(s[..|s| - 1], n, a, b);
      assert ValidMatch(s[|s| - 1], n);
    }
  }
}
