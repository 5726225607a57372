# A verified model of the tennisassist match scorer

tennisassist keeps the score of a tennis match. Two players, or two doubles
teams, play under a match format, a game scoring policy and a final-set tie
resolution:

- The match formats are best of three, best of five, and best of two with a
  match-deciding super tiebreak.
- A game ("gem" in the source) is scored with deuce and advantage, or with a
  golden ball: a deciding point at forty-all.
- A final set at six games all is decided by advantage, by a tiebreak or by
  a super tiebreak.

The scorer is a closed state machine. Its phases are BeforeFirstGem,
GemInProgress, BreakInPlay, TiebreakInPlay, SupertiebreakInPlay and
MatchFinished. It takes three events: register the first server, start
play, and register a point. It rests on four pure counters: the score pair,
the game counter, the tiebreak counter and the set counter.

The repository holds two revisions of the state machine:

- The inline revision, `TennisMatch.java`, writes every match-level effect
  out in its inner phase classes. It is the authority for end-to-end
  behaviour here. It is modelled in `tennis_match.dfy`.
- The split revision has one file per phase and is built on the counters.
  Its phase classes call match helpers that are not part of this model:
  `finishGem`, `finishSet`, `ensureSetStarted`, `changeServingPlayer`,
  `needsSuperTiebreak` and `currentSetScoreCounter`. `split_phases.dfy`
  defines them after their inline counterparts.

`revisions.dfy` proves that the two revisions agree on every reachable
match, with one exception: a won super tiebreak in the two-set format.

## Layout

| file | module | models |
|---|---|---|
| base.dfy | Base | options, results, the error kinds, Java's `%` |
| players.dfy | Players | `Player.java`, `Players.java` |
| scores.dfy | Scores | `Score.java` |
| settings.dfy | Settings | `MatchFormat.java`, `MatchSettings.java`, the two setting enums |
| gem_points.dfy | GemPoints | `GemPoint` and `GemScore.java` |
| gem_counters.dfy | GemCounters | `GemScoreCounter.java` |
| tiebreaks.dfy | Tiebreaks | `TiebreakScoreCounter.java` |
| set_counters.dfy | SetCounters | `TennisSetScoreCounter.java` |
| match_state.dfy | MatchState | the fields of `TennisMatch`, `MatchState.java` as a phase union, and the shared transitions |
| tennis_match.dfy | TennisMatch | the inline state machine |
| match_invariant.dfy | MatchInvariant | the invariant of every reachable match |
| split_phases.dfy | SplitPhases | the split phase files |
| revisions.dfy | Revisions | agreement and divergence of the two revisions |
| scenarios.dfy | Scenarios | short matches played event by event |

## Modelling decisions

- A player is one equality type. `Players.SamePlayerIsEquality` proves that
  the source's `equals` is the datatype's structural equality. The
  revisions' String players and Player objects both become this type. A
  match needs two distinct players.
- A score is a map from player to value, so `==` on it is the source's map
  equality. The mutable `setScore` of the earlier revision becomes `Put`,
  which returns a new value.
- An event returns `Accepted(next)` or `Rejected(error, next)`. A Java
  exception becomes a rejection with an error kind. Messages are not
  modelled.
- `next` on a rejection is the state the source leaves behind. Only
  `startPlay` mutates before it throws: it installs the 0–0 set first.
- Some failures only a broken state could hit: a null dereference, or
  `values()[ordinal + 1]` past the end of the enum. These are the internal
  error kinds. `MatchInvariant.StepKeepsInv` proves that no reachable match
  produces one.
- `GemPoint` has six values and ends in `GEM`. `GemScoreCounter.java:23,31`
  needs `GEM` to follow `ADVANTAGE`. The enum in `GemScore.java:44-50` stops
  at `ADVANTAGE`, which is an older copy.
- Java's `%` truncates toward zero. `Base.JavaRemainder` models it.
- `TennisMatch.java` uses an earlier revision of `Score`, with a
  three-argument constructor and `setScore`, which is not part of this
  model. Its `getScore` is taken to check membership as `Score.java:27-30`
  does, so a point for a name that is not a player is refused with "no
  such player". If that `getScore` were a plain map read, as
  `GemScore.scoreOf` is, the outcome would differ in one case only: in a
  game with advantage scoring where player one holds ADVANTAGE, such a point
  would reset player one to FOURTY (`TennisMatch.java:136-140`). Everywhere
  else the unknown player's missing value is dereferenced and the point
  fails anyway. `MatchInvariant.GamePointKeepsInv` states acceptance
  exactly for the players under this reading.

### Where the code departs from the rules or the documentation

- **Two-set format.** The inline set test (`TennisMatch.java:150`, `:257`)
  ends the match only for best of three at two sets and best of five at
  three. A match in the two-set format therefore goes on at two sets to
  nil, although `MatchFormat.isMatchFinished` says it is over. The model
  follows the code: see `MatchState.EndsMatchIsFinishedButForTwoSets` and
  `Scenarios.TwoSetsToNilDoNotEndTwoSetMatch`.
- **Super tiebreak without a recorded set.** An inline super tiebreak
  records a 7–x set only under the SUPER_TIEBREAK final-set resolution.
  Otherwise the match ends with one set fewer in the history than in the
  match score (`MatchInvariant.Ledger`).
- **Split super tiebreak.** `SupertiebreakInPlay.java:28-33` hands a won
  super tiebreak to `finishGem` or `finishSet`. Neither helper is part of
  this model, so the outcome in the two-set format depends on the stand-ins
  defined here. The stand-ins reuse the inline set test, and with them the
  split super tiebreak never finishes a two-set match: it either counts as a
  game, or closes a set whose score is the super tiebreak's own points, and
  then play breaks. The inline revision finishes the match
  (`Revisions.SupertiebreakDivergesInTwoSetFormat`). A real `finishSet` that
  asks `MatchSettings.isMatchFinished` instead would finish it, because that
  test counts two sets as a win in the two-set format.
- **Failed start.** A failed inline `startPlay` still leaves a 0–0 set
  behind (`TennisMatch.java:52-57`). The split `BeforeFirstGem` checks the
  server first and installs nothing (`Revisions.StartPlaysAgree`).
- **Register the server during a game.** This is refused with "a gem is in
  progress", not "the server has already been chosen".
- **Server value.** Any player value is accepted as the server, including
  one who does not play in the match.
- **Tiebreak branch that keeps the set open.** The inline tiebreak has a
  branch that does not close the set (`TennisMatch.java:253`). It nulls the
  tiebreak score but stays in the tiebreak phase. No reachable match takes
  that branch, and the model keeps the counter there.

## Model

Source paths are relative to the repository root.

| member | source | states |
|---|---|---|
| Base.JavaRemainder | src/main/java/pl/com/bottega/tennisassist/TennisMatch.java:265 | Java's remainder lies strictly between minus and plus the divisor, agrees with the mathematical remainder on non-negative dividends and is never positive on negative ones |
| Players.SamePlayerIsEquality | src/main/java/pl/com/bottega/tennisassist/Player.java:22-57 | the equality of the two player classes is exactly structural equality of the model's players |
| Players.SinglesEqualIffSameName | src/main/java/pl/com/bottega/tennisassist/Player.java:22-28 | two singles players are equal if and only if their names are equal |
| Players.DoublesEqualIffSameMembersInOrder | src/main/java/pl/com/bottega/tennisassist/Player.java:50-57 | two teams are equal if and only if their members are equal position by position; a team with its two different members swapped is a different team |
| Players.SinglesNeverEqualsDoubles | src/main/java/pl/com/bottega/tennisassist/Player.java:25 | a singles player never equals a team, in either direction, whatever the names |
| Players.DoublesBuiltFromSingles | src/main/java/pl/com/bottega/tennisassist/Player.java:7-13 | the members of `doublesPlayer(a, b)` equal `singlesPlayer(a)` and `singlesPlayer(b)` |
| Players.Players.Opponent | src/main/java/pl/com/bottega/tennisassist/TennisMatch.java:136 | the opponent is always one of the two players, differs from a registered player, and is player one for anybody unregistered |
| Scores.Score.Get | src/main/java/pl/com/bottega/tennisassist/Score.java:27-30 | a lookup succeeds exactly for a key of the map, returns its value, and fails with "no such player" otherwise |
| Scores.Score.Other | src/main/java/pl/com/bottega/tennisassist/Score.java:39-44 | the other player's value exists exactly when the player is a key and is not the only key, and is the value of some different key |
| Scores.OtherKeyIsUnique | src/main/java/pl/com/bottega/tennisassist/Score.java:41-43 | in a map of at most two keys the key left after removing a player is unique, so the iterator's pick is determined |
| Scores.OfIsWellFormed | src/main/java/pl/com/bottega/tennisassist/Score.java:17-21 | the two-player constructor keys the map by exactly the two given players and yields one or two entries |
| Scores.UpdateThenGet | src/main/java/pl/com/bottega/tennisassist/Score.java:32-37 | updating a key succeeds, the key reads back the new value, every other key keeps its value and the key set is unchanged |
| Scores.Score.Update | src/main/java/pl/com/bottega/tennisassist/Score.java:32-37 | the update succeeds exactly for a key and fails with "no such player" otherwise; the new score holds the new value for the player, the same value for every other player, and the same keys |
| Scores.UpdateUnknownFails | src/main/java/pl/com/bottega/tennisassist/Score.java:33 | updating or reading a player who is not a key fails with "no such player" |
| Scores.UpdateOfFirst | src/main/java/pl/com/bottega/tennisassist/Score.java:32-37 | updating the first of two distinct players gives the pair built with the new value |
| Scores.OtherOfTwoPlayers | src/main/java/pl/com/bottega/tennisassist/Score.java:39-44 | with two distinct players, each player's other value is the opponent's value |
| Scores.OfSamePlayerTwice | src/main/java/pl/com/bottega/tennisassist/Score.java:17-21 | a player given twice leaves one entry with the second value, and asking for the other player's value fails |
| Scores.FreshGivesBothZero | src/main/java/pl/com/bottega/tennisassist/Score.java:13-15 | the Players constructor gives both registered players the initial value and nobody else an entry |
| Scores.EqualityIsPointwise | src/main/java/pl/com/bottega/tennisassist/Score.java:46-52 | two scores are equal if and only if every lookup on them gives the same result |
| Scores.OfOrderIrrelevant | src/main/java/pl/com/bottega/tennisassist/Score.java:17-21 | the order in which two distinct players are given to the constructor does not matter |
| Settings.FinishedExactlyAtSetsToWin | src/main/java/pl/com/bottega/tennisassist/MatchFormat.java:7-43 | a match is finished exactly when the set winner has the format's sets to win (2, 3, 2); one set more does not count as finished |
| Settings.FinalSetDecidesMatch | src/main/java/pl/com/bottega/tennisassist/MatchFormat.java:17-53 | the final set is 1–1 in best of three and 2–2 in best of five, the two-set format has none, and winning it finishes the match |
| Settings.SuperTiebreakDecidesMatch | src/main/java/pl/com/bottega/tennisassist/MatchFormat.java:12-48 | a match-level super tiebreak is needed only in the two-set format at one set all, and winning it finishes the match |
| Settings.NeverFinalSetAndSuperTiebreak | src/main/java/pl/com/bottega/tennisassist/MatchFormat.java:12-53 | no format is in a final set and needs a super tiebreak at the same set score |
| Settings.SettingsAnswerLikeFormat | src/main/java/pl/com/bottega/tennisassist/MatchSettings.java:26-36 | the settings answer the three questions exactly as their format does |
| GemPoints.Ordinal | src/main/java/pl/com/bottega/tennisassist/GemScore.java:44-50 | every point has a position below six in the enum |
| GemPoints.FromOrdinal | src/main/java/pl/com/bottega/tennisassist/GemScoreCounter.java:31 | indexing the enum succeeds exactly for positions 0 to 5 and lands on the point at that position |
| GemPoints.OrdinalRoundTrip | src/main/java/pl/com/bottega/tennisassist/GemScore.java:44-50 | indexing by a point's position gives the point back, and positions are unique |
| GemPoints.PointOrder | src/main/java/pl/com/bottega/tennisassist/GemScore.java:44-50 | the enum order is a strict total order ZERO < FIFTEEN < THIRTY < FOURTY < ADVANTAGE < GEM, and the successor is the next point with nothing in between, defined for all but GEM |
| GemPoints.NewGemScoreStartsAtZero | src/main/java/pl/com/bottega/tennisassist/GemScore.java:13-15 | a new game score holds exactly the two players, both at ZERO |
| GemPoints.SetScoreThenScoreOf | src/main/java/pl/com/bottega/tennisassist/GemScore.java:22-41 | after `setScore(p, v)` `scoreOf(p)` is v, every other player keeps their value, and p becomes a key if it was not one (no membership check) |
| GemCounters.GemCounter.HasWon | src/main/java/pl/com/bottega/tennisassist/GemScoreCounter.java:22-24 | the question has an answer exactly for a key, and the answer is yes exactly when the player's entry is GEM |
| GemCounters.GemCounter.Increment | src/main/java/pl/com/bottega/tennisassist/GemScoreCounter.java:44-83 | an accepted point keeps the counter well formed and of the same policy, and an advantage counter over the same players |
| GemCounters.SetIncremented | src/main/java/pl/com/bottega/tennisassist/GemScoreCounter.java:30-32 | the player moves to the next point in enum order and the keys are unchanged; fails for an unknown player |
| GemCounters.NewGemCounter | src/main/java/pl/com/bottega/tennisassist/GemScoreCounter.java:12-18 | `of` gives the advantage counter exactly for WITH_ADVANTAGE and golden ball otherwise, both at ZERO for the two players |
| GemCounters.IncrementAfterGemFails | src/main/java/pl/com/bottega/tennisassist/GemScoreCounter.java:47-76 | under either policy a point to a player on GEM is refused, and that player has won |
| GemCounters.AdvantageDeuce | src/main/java/pl/com/bottega/tennisassist/GemScoreCounter.java:51-62 | a point against a player on ADVANTAGE puts both players back on FOURTY |
| GemCounters.AdvantageWinFromFourty | src/main/java/pl/com/bottega/tennisassist/GemScoreCounter.java:53-54 | a player on FOURTY against an opponent on neither FOURTY nor ADVANTAGE wins the game with the point |
| GemCounters.AdvantageStepsUp | src/main/java/pl/com/bottega/tennisassist/GemScoreCounter.java:30-56 | otherwise the player moves one step up: FOURTY–FOURTY becomes ADVANTAGE and ADVANTAGE becomes GEM |
| GemCounters.GoldenBallRule | src/main/java/pl/com/bottega/tennisassist/GemScoreCounter.java:78-82 | under golden ball a point at FOURTY wins whatever the opponent has; any other point moves one step up |
| GemCounters.GoldenBallNeverAdvantage | src/main/java/pl/com/bottega/tennisassist/GemScoreCounter.java:78-82 | under golden ball a score without ADVANTAGE never acquires one |
| GemCounters.OnlyScorerChanges | src/main/java/pl/com/bottega/tennisassist/GemScoreCounter.java:31-79 | apart from deuce a point changes only the scorer's entry |
| GemCounters.NewCounterShowsNoPoints | src/main/java/pl/com/bottega/tennisassist/GemScoreCounter.java:12-18 | a new counter of either policy is the reference score for no points won by either side |
| GemCounters.AdvantageCounterTracksPoints | src/main/java/pl/com/bottega/tennisassist/GemScoreCounter.java:44-58 | against the reference rule "four points and two clear", counted in points won: from any unfinished game a point moves the counter to the call of the new counts, and the player has won exactly when the rule says so |
| GemCounters.GoldenBallCounterTracksPoints | src/main/java/pl/com/bottega/tennisassist/GemScoreCounter.java:71-83 | against the reference rule "first to four points": each point moves the counter to the call of the new counts and the game is won exactly at the fourth point |
| Tiebreaks.TiebreakCounter.IsWon | src/main/java/pl/com/bottega/tennisassist/TiebreakScoreCounter.java:22-24 | the answer exists exactly for a registered player who is below the winning score or has an opponent in the score (the opponent is only consulted at the winning score), and it is yes if and only if the player has at least the winning score and leads the other player by at least two |
| Tiebreaks.TiebreakCounter.Increment | src/main/java/pl/com/bottega/tennisassist/TiebreakScoreCounter.java:15-20 | refused exactly when the player has already won, and accepted whenever the player has not, including a player below the target with no opponent in the score; an accepted point gives the player exactly one point more and changes nothing else |
| Tiebreaks.NewTiebreakCounter | src/main/java/pl/com/bottega/tennisassist/TiebreakScoreCounter.java:9-13 | a new counter is 0–0 for both players with the given target |
| Tiebreaks.PlayPoints | src/main/java/pl/com/bottega/tennisassist/TiebreakScoreCounter.java:15-20 | a run of accepted points keeps the counter well formed over the same players |
| Tiebreaks.TiebreakCounter.ShouldChangeServingPlayer | src/main/java/pl/com/bottega/tennisassist/TiebreakScoreCounter.java:26-28 | with two distinct players, the serve should change exactly when the number of points played is odd; a negative total never asks for a change |
| Tiebreaks.ServeFollowsPointsPlayed | src/main/java/pl/com/bottega/tennisassist/TiebreakScoreCounter.java:15-28 | from any counter, after a run of accepted points the serve should change exactly when the points played before plus the run's length is odd |
| Tiebreaks.CountedTiebreakFacts | src/main/java/pl/com/bottega/tennisassist/TiebreakScoreCounter.java:22-28 | for any counter at one player's points to the other's, the win verdict is "at least the target and two clear" and the serve-change verdict is the Java remainder of the total by two being one |
| Tiebreaks.WinNeedsTargetAndMargin | src/main/java/pl/com/bottega/tennisassist/TiebreakScoreCounter.java:22-24 | to ten, 9–9 and 10–9 are not won and 10–8 is; to seven, 7–5 is won |
| Tiebreaks.LonePlayerPlaysUpToTarget | src/main/java/pl/com/bottega/tennisassist/TiebreakScoreCounter.java:15-24 | a counter whose two players are the same player answers not won and accepts the point while below the target, and is refused with an error once at the target, because only then is the missing opponent looked up |
| Tiebreaks.AtMostOneWinner | src/main/java/pl/com/bottega/tennisassist/TiebreakScoreCounter.java:23 | the margin of two means at most one player has won |
| Tiebreaks.NewCounterIsLoveAll | src/main/java/pl/com/bottega/tennisassist/TiebreakScoreCounter.java:9-28 | a new counter has seen no points and asks for no change of server |
| Tiebreaks.PointsAddUp | src/main/java/pl/com/bottega/tennisassist/TiebreakScoreCounter.java:19 | every accepted point adds exactly one to the total played |
| Tiebreaks.ServeChangesAfterOddPoints | src/main/java/pl/com/bottega/tennisassist/TiebreakScoreCounter.java:26-28 | from a new counter the server should change exactly after an odd number of points |
| SetCounters.SetCounter.IsWonInLastGem | src/main/java/pl/com/bottega/tennisassist/TennisSetScoreCounter.java:57-109 | the set verdict exists exactly for a registered player of a two-player score |
| SetCounters.SetCounter.Increase | src/main/java/pl/com/bottega/tennisassist/TennisSetScoreCounter.java:34-39 | refused exactly when the player has already taken the set, and accepted whenever the player has not; an accepted game gives the player one more game, keeps the opponent's games and the variant |
| SetCounters.NewSetCounter | src/main/java/pl/com/bottega/tennisassist/TennisSetScoreCounter.java:8-28 | a new set counter stands at 0–0 for the two players |
| SetCounters.VariantChoice | src/main/java/pl/com/bottega/tennisassist/TennisSetScoreCounter.java:13-28 | a set that is not the last is a tiebreak set; the last follows the resolution, advantage exactly for ADVANTAGE and super tiebreak exactly for SUPER_TIEBREAK |
| SetCounters.IncreaseAfterWinFails | src/main/java/pl/com/bottega/tennisassist/TennisSetScoreCounter.java:35-37 | a game for a player who has already taken the set is refused |
| SetCounters.AdvantageSetRule | src/main/java/pl/com/bottega/tennisassist/TennisSetScoreCounter.java:57-71 | an advantage set is won at six games and two clear with no ceiling (12–10 is won, 7–6 is not) and never needs either tiebreak |
| SetCounters.TiebreakSetRule | src/main/java/pl/com/bottega/tennisassist/TennisSetScoreCounter.java:81-119 | a tiebreak or super-tiebreak set is won at 6 with two clear or at 7; the tiebreak set alone needs a tiebreak and the super-tiebreak set alone a super tiebreak, both exactly at 6–6 |
| SetCounters.NeverBothTiebreaks | src/main/java/pl/com/bottega/tennisassist/TennisSetScoreCounter.java:63-119 | no set counter ever needs a tiebreak and a super tiebreak at once |
| SetCounters.SixAllGoesToSevenSix | src/main/java/pl/com/bottega/tennisassist/TennisSetScoreCounter.java:81-119 | at 6–6 nobody has won, a tiebreak is due, and the game the tiebreak awards makes the set 7–6 and won |
| SetCounters.SetCounter.NeedsTiebreak | src/main/java/pl/com/bottega/tennisassist/TennisSetScoreCounter.java:87-90 | a tiebreak is asked for only in a tiebreak set and only while neither player has taken the set; `TiebreakSetRule` gives the exact 6–6 condition |
| SetCounters.SetCounter.NeedsSuperTiebreak | src/main/java/pl/com/bottega/tennisassist/TennisSetScoreCounter.java:116-119 | a super tiebreak is asked for only in a super-tiebreak set and only while neither player has taken the set; `TiebreakSetRule` gives the exact 6–6 condition |
| SetCounters.TiebreakGameDecidesSet | src/main/java/pl/com/bottega/tennisassist/TennisSetScoreCounter.java:81-119 | whenever either tiebreak is due, the set counter accepts the game it awards, and that game takes the set for its winner |
| SetCounters.VerdictOnPair | src/main/java/pl/com/bottega/tennisassist/TennisSetScoreCounter.java:57-109 | the verdict on a set at own games to other, read off each variant's rule |
| SetCounters.GameSetTestAgreesWithVariant | src/main/java/pl/com/bottega/tennisassist/TennisMatch.java:145-146 | the inline "six games and two clear" test after an ordinary game agrees with every variant's verdict on all scores an ordinary game can reach |
| MatchState.NewMatch | src/main/java/pl/com/bottega/tennisassist/TennisMatch.java:31-38 | a new match is before the first game with no server, no set, no history, 0–0 in sets, and reports neither winner nor game score |
| MatchState.EnsureSetStarted | src/main/java/pl/com/bottega/tennisassist/TennisMatch.java:53-55 | afterwards a set is in progress: the open one if there was one, otherwise a fresh 0–0 set with nothing else changed |
| MatchState.StartGem | src/main/java/pl/com/bottega/tennisassist/TennisMatch.java:185-187 | only the phase changes, to a game of the match's scoring policy at ZERO–ZERO |
| MatchState.StartTiebreak | src/main/java/pl/com/bottega/tennisassist/TennisMatch.java:181-183 | only the phase changes, to a 0–0 tiebreak to seven whose first server is the current server |
| MatchState.StartSuperTiebreak | src/main/java/pl/com/bottega/tennisassist/TennisMatch.java:176-179 | only the phase changes, to a 0–0 tiebreak to ten |
| MatchState.ChangeServingPlayer | src/main/java/pl/com/bottega/tennisassist/TennisMatch.java:266 | only the server changes, to a player of the match different from a registered server; fails without a server |
| MatchState.StartBreak | src/main/java/pl/com/bottega/tennisassist/TennisMatch.java:171-174 | the serve passes to the opponent and the phase becomes a break, nothing else changes |
| MatchState.FinishMatch | src/main/java/pl/com/bottega/tennisassist/TennisMatch.java:167-169 | only the phase changes, and the match reports the given winner |
| MatchState.EndsMatchIsFinishedButForTwoSets | src/main/java/pl/com/bottega/tennisassist/TennisMatch.java:150 | the inline end-of-match test is the format's `isMatchFinished` with the two-set format left out: two sets to nil there does not end the match |
| MatchState.CloseSet | src/main/java/pl/com/bottega/tennisassist/TennisMatch.java:147-153 | the set winner gains one set and the opponent's sets are unchanged, the set is appended to the history and cleared, and the match either ends with that winner or breaks with the serve passed |
| TennisMatch.RegisterFirstServingPlayer | src/main/java/pl/com/bottega/tennisassist/TennisMatch.java:98-103 | accepted exactly before the first game with no server yet, and then only the server is set; every refusal leaves the match as it was, with the phase's error |
| TennisMatch.StartPlay | src/main/java/pl/com/bottega/tennisassist/TennisMatch.java:52-57 | a set always exists afterwards, even after a refusal; play starts only before the first game once a server is chosen, into a new game, or from a break; every other phase refuses with its own error; scores, history and server are untouched |
| TennisMatch.ResumeAfterBreak | src/main/java/pl/com/bottega/tennisassist/TennisMatch.java:197-217 | resuming changes only the phase, to a game, a tiebreak or a super tiebreak; a tiebreak is to seven and only at six games all; a super tiebreak is to ten and only in the two-set format or a final set resolved by one (the full branch is `MatchInvariant.ResumeUnfolds`) |
| TennisMatch.RegisterPoint | src/main/java/pl/com/bottega/tennisassist/TennisMatch.java:63-65 | outside a game or tiebreak the point is refused and nothing changes; players and settings never change; at most one finished set is appended per point and none is removed |
| TennisMatch.GemPointWon | src/main/java/pl/com/bottega/tennisassist/TennisMatch.java:135-158 | a game point fails only with "no such player" or an internal error; while the game goes on only the game score changes; otherwise play breaks or the match ends with the point's winner; players and settings are kept and at most one set is recorded |
| TennisMatch.GameWon | src/main/java/pl/com/bottega/tennisassist/TennisMatch.java:145-155 | a won game leads to a break or to the match won by the game's winner; a set is recorded exactly when the open set is closed, and while the set stays open the sets won are unchanged |
| TennisMatch.TiebreakPointWon | src/main/java/pl/com/bottega/tennisassist/TennisMatch.java:246-267 | a tiebreak point fails only with "no such player" or an internal error; the tiebreak goes on with the same first server, or it ends with a break or the match won by the point's winner, and then the player who did not serve first serves |
| TennisMatch.SupertiebreakPointWon | src/main/java/pl/com/bottega/tennisassist/TennisMatch.java:284-300 | a super-tiebreak point fails only with "no such player" or an internal error; while the super tiebreak goes on the sets, the set score and the history are unchanged; otherwise the match ends with the point's winner, who gains one set |
| TennisMatch.Step | src/main/java/pl/com/bottega/tennisassist/TennisMatch.java:48-65 | no event changes the players or the settings |
| TennisMatch.Run | src/main/java/pl/com/bottega/tennisassist/TennisMatch.java:48-65 | no sequence of events changes the players or the settings |
| MatchInvariant.NewMatchSatisfiesInv | src/main/java/pl/com/bottega/tennisassist/TennisMatch.java:31-38 | a new match satisfies the invariant: scores keyed by the two players, every won set recorded, open sets undecided, counters in reachable positions |
| MatchInvariant.CloseSetKeepsLedger | src/main/java/pl/com/bottega/tennisassist/TennisMatch.java:147-153 | closing a set of a running match succeeds, keeps the set ledger, and either breaks or ends the match with that winner |
| MatchInvariant.GameWonUnfolds | src/main/java/pl/com/bottega/tennisassist/TennisMatch.java:145-155 | a won game closes the set exactly when the winner then has six or more games and two clear; otherwise play breaks with the set updated |
| MatchInvariant.GamePointKeepsInv | src/main/java/pl/com/bottega/tennisassist/TennisMatch.java:135-158 | a point in a game succeeds exactly for a player of the match, fails only with "no such player", and keeps the invariant |
| MatchInvariant.AdvantageLostKeepsInv | src/main/java/pl/com/bottega/tennisassist/TennisMatch.java:139-140 | the point against an advantage is accepted and keeps the invariant |
| MatchInvariant.PointInGameKeepsInv | src/main/java/pl/com/bottega/tennisassist/TennisMatch.java:156-157 | a point that neither wins the game nor undoes an advantage is accepted and keeps the invariant |
| MatchInvariant.SetWonByGameKeepsInv | src/main/java/pl/com/bottega/tennisassist/TennisMatch.java:146-153 | a game that wins the set is accepted and keeps the invariant |
| MatchInvariant.GameInSetKeepsInv | src/main/java/pl/com/bottega/tennisassist/TennisMatch.java:145-155 | a game that leaves the set open is accepted and keeps the invariant |
| MatchInvariant.TiebreakPointKeepsInv | src/main/java/pl/com/bottega/tennisassist/TennisMatch.java:246-267 | a tiebreak point succeeds exactly for a player of the match and keeps the invariant |
| MatchInvariant.TiebreakWinInline | src/main/java/pl/com/bottega/tennisassist/TennisMatch.java:251-264 | the winning tiebreak point at six all closes the set 7–6 and then hands the serve to the player who did not serve first in the tiebreak |
| MatchInvariant.TiebreakWonKeepsInv | src/main/java/pl/com/bottega/tennisassist/TennisMatch.java:251-264 | the winning tiebreak point is accepted and keeps the invariant |
| MatchInvariant.TiebreakRunsOnKeepsInv | src/main/java/pl/com/bottega/tennisassist/TennisMatch.java:265-266 | any other tiebreak point is accepted and keeps the invariant |
| MatchInvariant.RunningTiebreakFacts | src/main/java/pl/com/bottega/tennisassist/TennisMatch.java:247-265 | the inline tiebreak step and the counter agree: the counter accepts the point, its win verdict is the inline test, and its serve-change test is the inline odd-total test |
| MatchInvariant.SupertiebreakPointKeepsInv | src/main/java/pl/com/bottega/tennisassist/TennisMatch.java:284-300 | a super-tiebreak point succeeds exactly for a player of the match and keeps the invariant |
| MatchInvariant.SupertiebreakWinInline | src/main/java/pl/com/bottega/tennisassist/TennisMatch.java:289-297 | the winning super-tiebreak point adds a set to the winner, records a 7–x set only under the SUPER_TIEBREAK resolution, clears the set and finishes the match with that winner |
| MatchInvariant.SupertiebreakWonKeepsInv | src/main/java/pl/com/bottega/tennisassist/TennisMatch.java:289-297 | the winning super-tiebreak point is accepted and keeps the invariant |
| MatchInvariant.SupertiebreakRunsOnKeepsInv | src/main/java/pl/com/bottega/tennisassist/TennisMatch.java:298-299 | any other super-tiebreak point is accepted and keeps the invariant |
| MatchInvariant.ResumeUnfolds | src/main/java/pl/com/bottega/tennisassist/TennisMatch.java:197-217 | resuming after a break starts a super tiebreak first, in the two-set format at 1–1 or at 6–6 in a deciding set resolved by super tiebreak; else a tiebreak at 6–6 unless the deciding set is played out with advantage; else a game |
| MatchInvariant.ResumeKeepsInv | src/main/java/pl/com/bottega/tennisassist/TennisMatch.java:197-217 | resuming after a break always succeeds on a reachable match and keeps the invariant |
| MatchInvariant.ChooseServerKeepsInv | src/main/java/pl/com/bottega/tennisassist/TennisMatch.java:98-103 | choosing the server keeps the invariant |
| MatchInvariant.StartPlayKeepsInv | src/main/java/pl/com/bottega/tennisassist/TennisMatch.java:52-57 | starting play keeps the invariant, and a refusal is always one of the source's deliberate errors |
| MatchInvariant.RegisterPointKeepsInv | src/main/java/pl/com/bottega/tennisassist/TennisMatch.java:135-300 | registering a point keeps the invariant, is never refused for an internal reason, and is accepted for a player of the match whenever a game or a tiebreak is in play |
| MatchInvariant.StepKeepsInv | src/main/java/pl/com/bottega/tennisassist/TennisMatch.java:48-65 | every event keeps the invariant and no refusal is ever internal, so no null dereference or enum overrun is reachable |
| MatchInvariant.RunKeepsInv | src/main/java/pl/com/bottega/tennisassist/TennisMatch.java:48-65 | every sequence of events keeps the invariant |
| MatchInvariant.ReachableMatchesAreConsistent | src/main/java/pl/com/bottega/tennisassist/TennisMatch.java:145-155 | after any events from a new match, a reported winner is a player of the match with exactly the format's sets to win and an opponent with fewer; while nobody has won, the history holds exactly one set per set won |
| MatchInvariant.FinishedIsTerminal | src/main/java/pl/com/bottega/tennisassist/TennisMatch.java:304-335 | once finished, no events change the phase, the winner, the match score or the history |
| SplitPhases.CurrentSetCounter | src/main/java/pl/com/bottega/tennisassist/TennisSetScoreCounter.java:13-28 | the current set counter holds the open set over the match's players, with the variant `of` picks from the final-set resolution and whether this is the final set |
| SplitPhases.NeedsSuperTiebreak | src/main/java/pl/com/bottega/tennisassist/BreakInPlay.java:19 | a super tiebreak is needed exactly when the format asks for one at the set score or the set counter stands at six all in a super-tiebreak set |
| SplitPhases.FinishGem | src/main/java/pl/com/bottega/tennisassist/GemInProgress.java:29 | finishing a game gives it to the set counter, which must accept it; the match then breaks with the increased set, or the set is recorded and the match breaks or ends with that winner |
| SplitPhases.SplitStartPlay | src/main/java/pl/com/bottega/tennisassist/BeforeFirstGem.java:20-26 | play starts before the first game exactly when a server is chosen, into a new game in a started set; every other phase but a break refuses with its own error and changes nothing |
| SplitPhases.ResumeAfterBreak | src/main/java/pl/com/bottega/tennisassist/BreakInPlay.java:16-26 | the break leads to a super tiebreak exactly when one is needed, to a tiebreak exactly when none is and the set counter needs a tiebreak, otherwise to a game |
| SplitPhases.SplitRegisterPoint | src/main/java/pl/com/bottega/tennisassist/BreakInPlay.java:28-31 | before the first game, in a break and after the match, a point is refused and nothing changes |
| SplitPhases.GamePoint | src/main/java/pl/com/bottega/tennisassist/GemInProgress.java:25-31 | the counter takes the point, and the game stays in progress showing the counter's new score exactly when the point's winner has not won it |
| SplitPhases.TiebreakPoint | src/main/java/pl/com/bottega/tennisassist/TiebreakInPlay.java:25-34 | the counter takes the point; a winning point leaves the tiebreak and the serve goes to the player who did not serve first; otherwise the tiebreak goes on and the server changes exactly when the total played is odd |
| SplitPhases.SupertiebreakPoint | src/main/java/pl/com/bottega/tennisassist/SupertiebreakInPlay.java:25-37 | the counter takes the point; a win under a resolution other than SUPER_TIEBREAK records the super tiebreak's own score as the set; otherwise the super tiebreak goes on with no set recorded, and the server changes exactly when the total is odd |
| Revisions.DecidingIsFinalSet | src/main/java/pl/com/bottega/tennisassist/TennisMatch.java:202-203 | the inline deciding-set test is the settings' `isFinalSet` |
| Revisions.SetCounterOfReachableMatch | src/main/java/pl/com/bottega/tennisassist/TennisSetScoreCounter.java:13-28 | in a reachable match the split set counter exists, holds the open set, is an advantage set exactly when the inline code plays the set out without a tiebreak, and a super-tiebreak set exactly in a deciding set resolved by one |
| Revisions.FinishGemAgreesWithGameWon | src/main/java/pl/com/bottega/tennisassist/TennisMatch.java:145-155 | in a reachable game the split `finishGem` and the inline game-won code produce the same match |
| Revisions.GamePointsAgree | src/main/java/pl/com/bottega/tennisassist/GemInProgress.java:25-31 | in a reachable game the split and inline game points give the same result for every winner |
| Revisions.TiebreakPointsAgree | src/main/java/pl/com/bottega/tennisassist/TiebreakInPlay.java:25-34 | in a reachable tiebreak the split and inline tiebreak points give the same result for every winner |
| Revisions.SupertiebreakWinsAgreeInDecidingSet | src/main/java/pl/com/bottega/tennisassist/SupertiebreakInPlay.java:28-33 | outside the two-set format a winning super-tiebreak point gives the same result in both revisions, and the match is won by that player |
| Revisions.TwoSetFormatNeverClosesMatch | src/main/java/pl/com/bottega/tennisassist/TennisMatch.java:150 | in the two-set format closing a set or finishing a game never ends the match, it breaks |
| Revisions.SupertiebreakDivergesInTwoSetFormat | src/main/java/pl/com/bottega/tennisassist/SupertiebreakInPlay.java:28-33 | in the two-set format the inline winning super-tiebreak point ends the match with that winner; the split one, run with this model's stand-in `finishGem` and `finishSet`, only starts a break when it succeeds |
| Revisions.SupertiebreakPointsAgree | src/main/java/pl/com/bottega/tennisassist/SupertiebreakInPlay.java:25-37 | apart from that winning point, the split and inline super-tiebreak points agree |
| Revisions.ResumeAgree | src/main/java/pl/com/bottega/tennisassist/BreakInPlay.java:16-26 | resuming after a break with a set started gives the same result in both revisions |
| Revisions.StartPlaysAgree | src/main/java/pl/com/bottega/tennisassist/BeforeFirstGem.java:19-26 | both revisions accept the same starts with the same result and refuse the rest with the same error; only the inline one leaves a fresh set behind on a refusal |
| Revisions.RegisterPointsAgree | src/main/java/pl/com/bottega/tennisassist/TennisMatch.java:63-65 | on a reachable match both revisions give the same outcome for every point, except a winning super-tiebreak point in the two-set format |
| Scenarios.RunConcatenates | src/main/java/pl/com/bottega/tennisassist/TennisMatch.java:48-65 | feeding events in two batches is the same as feeding them all at once |
| Scenarios.OrdinaryPoint | src/main/java/pl/com/bottega/tennisassist/TennisMatch.java:157 | a point below FOURTY, against no advantage, moves the winner one step up and changes nothing else |
| Scenarios.GamePointFromFourty | src/main/java/pl/com/bottega/tennisassist/TennisMatch.java:142-155 | from FOURTY against less, the point takes the game; short of six games the set goes on and play breaks with the serve passed |
| Scenarios.GameShortOfSet | src/main/java/pl/com/bottega/tennisassist/TennisMatch.java:145-155 | a game that leaves the winner short of six games adds it to the set and breaks |
| Scenarios.OpeningOfClassicMatch | src/main/java/pl/com/bottega/tennisassist/TennisMatch.java:98-111 | choosing a server and starting play opens the first game at love all in a fresh set |
| Scenarios.AliceTakesGame | src/main/java/pl/com/bottega/tennisassist/TennisMatch.java:142-155 | the server's point at forty-love takes the game: one game to nil, break, the opponent to serve |
| Scenarios.FirstGameToLove | src/main/java/pl/com/bottega/tennisassist/TennisMatch.java:135-158 | a love game from a new match leaves a break at one game to nil, no set finished, and the receiver serving next |
| Scenarios.TwoSetsToNilDoNotEndTwoSetMatch | src/main/java/pl/com/bottega/tennisassist/TennisMatch.java:146-155 | in the two-set format the game that makes it two sets to nil records the set but does not end the match: play breaks and no winner is reported |

## Left out

- Mutation and aliasing. Every operation returns a new value. The source
  mutates shared objects. For example, the set score appended to the
  history stays the same object as the current set. No observable result
  of the model depends on this.
- Exception messages, `toString` and `String.format` display text, and
  `hashCode`. The model keeps the error kind only. Equality is structural.
- `Optional`, `LinkedList` and `unmodifiableList` are modelled by
  `Option`, `seq` and immutable values.
- `Players.java` becomes the datatype `Players.Players`, and
  `MatchState.java` becomes the phase union. Neither has behaviour of its
  own.
- The getters of `MatchSettings.java:14-24` are the fields of the settings
  datatype. A datatype returns its constructor arguments unchanged by
  construction.
- The split revision's match helpers (`finishGem`, `finishSet`,
  `ensureSetStarted`, `changeServingPlayer`, `needsSuperTiebreak`,
  `currentSetScoreCounter`) are not part of this model. They are defined
  after the inline code, so the model claims no fidelity to them beyond
  that.
- The split `finishSet` is taken to close the set as the inline code does.
  `SplitPhases.SupertiebreakPoint` states only the set it records on that
  path, because the helper itself is not part of this model.
- The split revision's `registerFirstServingPlayer` in each phase matches
  the inline one (`BeforeFirstGem.java:11-17`, `GemInProgress.java:15-18`,
  `TiebreakInPlay.java:15-18`, `SupertiebreakInPlay.java:15-18`,
  `BreakInPlay.java:11-14`, `MatchFinished.java:13-16`). It is modelled
  once, by `TennisMatch.RegisterFirstServingPlayer`.
- `getCurrentGemScore` and `getMatchWinner` (`TennisMatch.java:59-61`,
  `:75-77`, `MatchFinished.java:28-31`) are the accessors
  `Match.CurrentGemScore` and `Match.MatchWinner`.
  `MatchInvariant.ReachableMatchesAreConsistent` and
  `MatchInvariant.FinishedIsTerminal` state what they report.
- Partial mutation before an internal failure. The Java counters mutate
  themselves before a later step throws. For example, the split game
  counter takes the point before `finishGem` could throw. The model
  returns the state from before the event instead. The invariant proves
  that no such failure is reachable.
- GemCounters.GemCounter.Increment: its own contract states only that the
  counter stays well formed with the same policy. What it computes is
  stated case by case in the lemmas `AdvantageDeuce`,
  `AdvantageWinFromFourty`, `AdvantageStepsUp`, `GoldenBallRule` and
  `IncrementAfterGemFails`.
- SetCounters.SetCounter.IsWonInLastGem: its own contract states only when
  a verdict exists. The verdict of each variant is stated by
  `AdvantageSetRule`, `TiebreakSetRule` and `VerdictOnPair`.
- TennisMatch.GemPointWon: its own contract states the shape of the
  outcome only. The exact transition of each branch is stated by
  `Scenarios.OrdinaryPoint`, `Scenarios.GamePointFromFourty`, the
  MatchInvariant point lemmas and `Revisions.GamePointsAgree`.
- TennisMatch.TiebreakPointWon: its own contract states the shape of the
  outcome only. The exact transitions are stated by
  `MatchInvariant.TiebreakWinInline` and `MatchInvariant.RunningTiebreakFacts`.
- TennisMatch.SupertiebreakPointWon: its own contract states the shape of
  the outcome only. The win is stated exactly by
  `MatchInvariant.SupertiebreakWinInline`.
- TennisMatch.ResumeAfterBreak: its own contract bounds when each phase is
  chosen. The full choice is stated by `MatchInvariant.ResumeUnfolds`.
- SetCounters.SetCounter.NeedsTiebreak and NeedsSuperTiebreak: their own
  contracts give necessary conditions only. The exact 6–6 condition is
  stated by `SetCounters.TiebreakSetRule`.
- TennisMatch.RegisterPoint: its own contract states the refusals and the
  frame only. What a point does is stated by the MatchInvariant and
  Scenarios lemmas, and by `Revisions.RegisterPointsAgree`.
- Java integers are 32 bits wide. Set, game and point counts stay small in
  any real match, so overflow is not modelled.
