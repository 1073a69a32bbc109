# Badminton scheduler: seeding and the Finish button

This project models the core of a small desktop badminton scheduler. Players
type up to ten teams of two into a form of twenty name fields and press
**Finish**. The button handler checks the form and reads the teams. It then
hands them to `makeSeed`, which builds the play order of a single round robin
with the circle method:

- team 1 stays fixed;
- teams 2..n, plus a bye marker `-1` when n is odd, sit in a rotation list;
- each round pairs team 1 with the last entry of the list and pairs the
  entries at `x` and `size - 2 - x` with each other, skipping any pair that
  holds the bye;
- the list is then rotated right by one place.

With exactly five teams a hard-coded reordering is applied afterwards. After
seeding, the form is rebuilt empty.

The model is split into six modules:

- `Rotation`: the bye marker, the number of rounds, the initial rotation list,
  and the rotation step. It includes index formulas for where an entry sits
  after `j` rotations.
- `Pairing`: the matches of one round (`Anchor`, `PairAt`, `PairsBefore`,
  `RoundMatches`) and of the first `r` rounds (`Rounds`, `Flattened`). It also
  has the counting functions `Count` (how often a pair meets) and
  `Involvements` (how often a team plays).
- `RoundRobin`: what the circle method guarantees.
  - Each round has floor(n/2) matches.
  - For odd n, one team sits out each round and each team sits out exactly one
    round.
  - Every match is valid, and there are n(n-1)/2 matches in all.
  - Every pair of teams meets exactly once.
- `Sequencing`: the five-team reordering `FixUp`, the play order `Schedule(n)`,
  and the play orders for two to five teams worked out in full.
- `Roster`: the form and the handler's verdict, as the pure function `Judge`.
- `Scheduler`: the class `BadmintonScheduler`.
  - Its fields are the twenty field texts, the team list, the match list and
    the error label.
  - Its methods follow the source's loops and list updates. Each is proved
    against the specification functions above.
  - `MakeSeed` ends with `matchList == Schedule(n)`.
  - `Finish` ends in the state that `Judge` prescribes.

The methods are proved against these specification functions, each a
direct reading of the source lines given:

- `Rotation.InitialRotation` (`src/BadmintonScheduler.java:198-204`): the
  initial rotation list.
- `Rotation.Rotate` (`src/BadmintonScheduler.java:222-223`): one rotation
  step, the last entry moved to the front.
- `Pairing.RoundMatches` (`src/BadmintonScheduler.java:207-221`): the matches
  of one round.
- `Pairing.Rounds` and `Pairing.Flattened`
  (`src/BadmintonScheduler.java:196-224`): the matches of the first r rounds,
  and of all rounds of n teams.
- `Sequencing.FixUp` (`src/BadmintonScheduler.java:226-229`): the five-team
  reordering.
- `Sequencing.Schedule` (`src/BadmintonScheduler.java:180-229`): the play
  order of n teams.
- `Roster.FilledCount` (`src/BadmintonScheduler.java:140-146`): the number of
  non-empty fields.
- `Roster.TeamsFrom` (`src/BadmintonScheduler.java:151-160`): the teams read
  from the form.
- `Roster.Judge` (`src/BadmintonScheduler.java:140-167`): the verdict of the
  Finish button.

A field counts as empty only when its text is the empty string, as the
source tests it with `isEmpty()`; a field holding only spaces is a name.

Behaviour of the code worth knowing, each proved as a lemma:

- For at least one team the rotation list has odd length: n - 1 for even n
  and n for odd n (`InitialRotationShape`). Zero teams give an empty list, a
  round count of -1 and no match (`InitialRotation`, `FlattenedTooFew`).
- Reading teams stops at the first pair whose FIRST field is empty. The second
  name of a team may be empty. So four names can give three teams
  (`ThreeTeamsFromFourNames`).
- Two names in fields 1 and 2 pass the count and seed zero teams
  (`NoTeamsSeeded`).
- After the one-team error the team list is not cleared. A second press on
  the same form lists the team twice and seeds it against itself
  (`SecondPressSeedsOneTeamTwice`).
- With five teams, before the correction two teams play back to back: team 3
  at positions 5 and 6, team 2 at positions 7 and 8 (0-based). After the
  correction no team does (`FiveTeamsUncorrected`, `FiveTeams`).
- With four teams, teams still play back to back at positions 1-2 and 3-4
  (`FourTeams`).

The unused `totalMatches` (`src/BadmintonScheduler.java:187-195`) counts bye
slots for odd n, giving (n+1)n/2. The proved number of emitted matches is
n(n-1)/2 (`ScheduleLength`).

## Model

| member | source | states |
|---|---|---|
| Rotation.InitialRotationShape | src/BadmintonScheduler.java:188-204 | the initial list is 2..n followed by the bye exactly when n is odd; its length is the round count `roundDiv` and is odd |
| Rotation.RotateNPermutes | src/BadmintonScheduler.java:206-223 | after any number of right rotations the list is a permutation of the initial one |
| Rotation.RotateNAt | src/BadmintonScheduler.java:222-223 | after j <= length rotations, index i holds the original entry at `Origin(i, j, length)` |
| Rotation.RotationCycle | src/BadmintonScheduler.java:222-223 | as many rotations as the list is long give back the list |
| Rotation.FullTurn | src/BadmintonScheduler.java:196-223 | after the `roundDiv` rounds the rotation list equals its initial value |
| Rotation.RotatedLocates | src/BadmintonScheduler.java:198-223 | in round j each team 2..n and (odd n) the bye sits at exactly one computed index, and team 1 sits nowhere |
| Pairing.AnchorAppended | src/BadmintonScheduler.java:207-212 | proof step of `AppendRound`: the anchor match (1, last entry) is appended unless the last entry is the bye |
| Pairing.SlotAppended | src/BadmintonScheduler.java:214-221 | proof step of the slot loop in `AppendRound`: slot x appends the match of entries x and size-2-x, and nothing when either is the bye |
| Pairing.RoundJoined | src/BadmintonScheduler.java:207-221 | proof step of `AppendRound`: the anchor match followed by all slots' matches is the whole round |
| Pairing.RoundAppended | src/BadmintonScheduler.java:206-224 | proof step of the round loop in `PlayRounds`: one more round appends its matches to those of the rounds before |
| Pairing.RoundCount | src/BadmintonScheduler.java:207-221 | within one round, a pair meets once exactly when its two seats face each other (or team 1 faces the last seat), and otherwise not at all |
| Pairing.RoundInvolvements | src/BadmintonScheduler.java:207-221 | within one round a team plays once, unless it faces the bye (team 1 faces it when the bye is last) |
| Pairing.RoundLength | src/BadmintonScheduler.java:207-221 | a round with a bye has (length-1)/2 matches, one without has (length+1)/2 |
| Pairing.RoundValid | src/BadmintonScheduler.java:207-221 | a round of distinct entries in 2..n or the bye yields only valid matches |
| Pairing.RoundsCountUpTo | src/BadmintonScheduler.java:206-224 | a pair that meets in round k and no other is counted once over r rounds iff k < r |
| Pairing.CountSymmetric | src/BadmintonScheduler.java:207-221 | the count of a pair does not depend on which team is named first |
| Pairing.CountOutsideRoster | src/BadmintonScheduler.java:207-221 | in a list of valid matches, a pair that is not two different teams of 1..n never occurs |
| RoundRobin.MeetArith | src/BadmintonScheduler.java:214-223 | two circle entries face each other in round j exactly when j is their meeting round, and then one of them is in the first half |
| RoundRobin.RoundPairCount | src/BadmintonScheduler.java:207-224 | teams a < b play each other in round j exactly once if j is their meeting round and not at all otherwise |
| RoundRobin.MeetingRoundOf | src/BadmintonScheduler.java:206-224 | teams a < b meet in exactly one of the `roundDiv` rounds |
| RoundRobin.RoundsPairCount | src/BadmintonScheduler.java:206-224 | over all rounds, teams a < b meet exactly once |
| RoundRobin.RoundListShape | src/BadmintonScheduler.java:198-223 | every round's list has `roundDiv` distinct entries, each a team of 2..n or the bye |
| RoundRobin.RoundSize | src/BadmintonScheduler.java:207-221 | every round has floor(n/2) matches |
| RoundRobin.RoundAllValid | src/BadmintonScheduler.java:207-221 | every match of every round names two different teams of 1..n, team 1 only first, never the bye |
| RoundRobin.RoundPlayers | src/BadmintonScheduler.java:207-221 | in each round every team plays exactly once, except that for odd n the team `SitsOut(n, j)` does not play |
| RoundRobin.SitsOutOnce | src/BadmintonScheduler.java:202-223 | for odd n, each team sits out exactly one round and each round has exactly one team sitting out |
| RoundRobin.ByeRotation | src/BadmintonScheduler.java:207-223 | for odd n, team t is absent from round j iff j is its sit-out round |
| RoundRobin.RoundsLength | src/BadmintonScheduler.java:206-224 | after r rounds the match list holds r * floor(n/2) matches |
| RoundRobin.RoundsTimesHalf | src/BadmintonScheduler.java:190-196 | the round count times floor(n/2) is n(n-1)/2 |
| RoundRobin.FlattenedTooFew | src/BadmintonScheduler.java:198-224 | zero or one team yields no match |
| RoundRobin.FlattenedLength | src/BadmintonScheduler.java:188-224 | before the correction there are n(n-1)/2 matches |
| RoundRobin.FlattenedValid | src/BadmintonScheduler.java:206-224 | before the correction every match is valid for n teams |
| RoundRobin.FlattenedCount | src/BadmintonScheduler.java:206-224 | before the correction every two different teams of 1..n meet exactly once, and no other pairing occurs |
| Sequencing.FixUpShape | src/BadmintonScheduler.java:226-229 | the correction keeps entries 0..5, swaps 6 and 7, moves 9.. up one place and puts 8 last |
| Sequencing.FixUpAt | src/BadmintonScheduler.java:226-229 | the correction keeps the length and takes each entry from the index `FixUpSource` names |
| Sequencing.FixUpOfTen | src/BadmintonScheduler.java:226-229 | on ten matches the correction plays them in the order 0,1,2,3,4,5,7,6,9,8 |
| Sequencing.FixUpPermutes | src/BadmintonScheduler.java:226-229 | the correction is a permutation of the match list |
| Sequencing.FixUpCount | src/BadmintonScheduler.java:226-229 | the correction changes no pair's count |
| Sequencing.ScheduleSteps | src/BadmintonScheduler.java:206-229 | proof step of `MakeSeed`: the play order is the flattened rounds, corrected exactly when n is 5 |
| Sequencing.ScheduleLength | src/BadmintonScheduler.java:180-229 | the play order has n(n-1)/2 matches |
| Sequencing.ScheduleValid | src/BadmintonScheduler.java:180-229 | every match of the play order names two different teams of 1..n |
| Sequencing.ScheduleCount | src/BadmintonScheduler.java:180-229 | the play order is a single round robin: every two different teams of 1..n meet exactly once |
| Sequencing.TwoTeams | src/BadmintonScheduler.java:180-229 | two teams play the single match (1, 2) |
| Sequencing.ThreeTeams | src/BadmintonScheduler.java:180-229 | three teams play (2,3), (1,3), (1,2) |
| Sequencing.FourTeams | src/BadmintonScheduler.java:180-229 | the four-team play order, with back-to-back matches exactly at positions 1-2 and 3-4 |
| Sequencing.FiveTeamsUncorrected | src/BadmintonScheduler.java:206-224 | before the correction, five teams play back to back exactly at positions 5-6 and 7-8 |
| Sequencing.FiveTeams | src/BadmintonScheduler.java:180-229 | the corrected five-team play order, in which no team plays two matches in a row |
| Roster.FilledCountIsSize | src/BadmintonScheduler.java:140-146 | the count of the first loop is the number of non-empty fields |
| Roster.TeamsFromShape | src/BadmintonScheduler.java:151-160 | the teams read are pairs (2k, 2k+1) with a non-empty first field, up to the first pair whose first field is empty |
| Roster.FilledInPairsVerdict | src/BadmintonScheduler.java:140-167 | a form filled in pair by pair with g teams is refused for g = 0 or 1 and otherwise seeds exactly those g teams in order |
| Roster.SeededRoster | src/BadmintonScheduler.java:140-167 | the count error is exactly zero or an odd number of non-empty fields; otherwise the team list is the old one followed by one team per pair (2k, 2k+1) up to the first pair whose first field is empty, and it is refused exactly when it holds one team |
| Roster.NoTeamsSeeded | src/BadmintonScheduler.java:140-165 | names in fields 1 and 2 only pass the count and seed zero teams |
| Roster.ThreeTeamsFromFourNames | src/BadmintonScheduler.java:140-165 | four names can seed three teams, since a second name may be empty |
| Roster.SecondPressSeedsOneTeamTwice | src/BadmintonScheduler.java:155-165 | a one-team form is refused; pressing Finish again seeds that team twice |
| Scheduler.BadmintonScheduler.constructor | src/BadmintonScheduler.java:46-72 | a new scheduler has an empty form, no team, no match and no error text |
| Scheduler.BadmintonScheduler.Enter | src/BadmintonScheduler.java:96-110 | typing into field k changes that field only |
| Scheduler.BadmintonScheduler.Reset | src/BadmintonScheduler.java:520-534 | the form is rebuilt empty, the team list emptied and the error label cleared; the match list stays |
| Scheduler.BadmintonScheduler.BuildRotation | src/BadmintonScheduler.java:198-204 | the loop builds the initial rotation list |
| Scheduler.BadmintonScheduler.AppendRound | src/BadmintonScheduler.java:207-221 | the anchor branch and the slot loop append exactly `RoundMatches` of the rotation list: team 1 against the last entry, then each slot x against size-2-x, skipping the bye |
| Scheduler.BadmintonScheduler.PlayRounds | src/BadmintonScheduler.java:206-224 | the round loop appends the matches of rounds 0..roundDiv-1 in order, rotating the list right by one after each round |
| Scheduler.BadmintonScheduler.CorrectFiveTeamOrder | src/BadmintonScheduler.java:226-229 | the in-place removes and inserts are the correction `FixUp` |
| Scheduler.BadmintonScheduler.SeedRounds | src/BadmintonScheduler.java:183-224 | a fresh match list is filled with all rounds of n teams |
| Scheduler.BadmintonScheduler.MakeSeed | src/BadmintonScheduler.java:180-518 | the match list becomes the play order `Schedule(n)` of the n listed teams, and the form is reset |
| Scheduler.BadmintonScheduler.CountNames | src/BadmintonScheduler.java:140-146 | the first loop counts the non-empty fields |
| Scheduler.BadmintonScheduler.ReadTeams | src/BadmintonScheduler.java:151-160 | the second loop appends the teams read from the form to the team list |
| Scheduler.BadmintonScheduler.Finish | src/BadmintonScheduler.java:136-167 | on a count error or a one-team list, the error text is set and the match list is untouched; otherwise the match list is the play order of the whole team list and the form is reset |

## Left out

- The Swing user interface is not modelled: frame, layout, fonts, icon and
  look-and-feel. The form is its twenty field texts and the error label its
  text.
- The Excel and Word export, the save dialog and the file writes after the
  seeding (`src/BadmintonScheduler.java:231-516`) are not modelled. They are
  calls into Apache POI and file I/O.
- The match list is `null` until the first seeding. The model starts it
  empty.
- `totalMatches` is computed and never used, so it is not modelled. The
  number of matches is proved instead (`ScheduleLength`).
- The source appends nothing for a slot that holds the bye. The specification
  function `PairAt` gives the empty sequence there, which joins to the same
  list.
- The hope that teams seldom play back to back is not a general property of
  the code, so it is not claimed. It is shown for four and five teams only.
- Each team is modelled by its two name texts; team numbers are positions in
  the team list plus one.
