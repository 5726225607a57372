/** The two revisions of the state machine side by side: on every match
    the inline revision can reach, the split phases take points and starts
    of play exactly as TennisMatch.java does, except for the point that wins
    a super tiebreak in the two-set format, where the revisions part. */
module Revisions {
  import opened Base
  import opened Players
  import opened Scores
  import opened GemPoints
  import opened Settings
  import opened GemCounters
  import opened Tiebreaks
  import opened SetCounters
  import opened MatchState
  import opened TennisMatch
  import opened MatchInvariant
  import SplitPhases

  /** The inline final-set test is the format's `isFinalSet`. */
  lemma DecidingIsFinalSet(m: Match)
    requires Tally(m.matchScore, m.players)
    ensures Deciding(m) == m.settings.IsFinalSet(m.matchScore.entries[m.players.player1], m.matchScore.entries[m.players.player2])
  {
  }

  /** On a reachable match the split revision's set counter exists, holds
      the current set, and is played with advantage exactly when the inline
      revision plays the set out, and with a super tiebreak exactly in a
      deciding set resolved by one. */
  lemma SetCounterOfReachableMatch(m: Match)
    requires Inv(m) && m.setScore.Some?
    ensures SplitPhases.CurrentSetCounter(m).Ok?
    ensures var c := SplitPhases.CurrentSetCounter(m).value;
      c.score == m.setScore.value && c.players == m.players
      && (c.variant == AdvantageSet <==> !CappedAtSixAll(m))
      && (c.variant == SuperTiebreakSet <==> m.settings.finalSetTieResolutionType == ResolveBySuperTiebreak && Deciding(m))
  {
    DecidingIsFinalSet(m);
    var sets1 := m.matchScore.entries[m.players.player1];
    var sets2 := m.matchScore.entries[m.players.player2];
    VariantChoice(m.players, m.settings.finalSetTieResolutionType, m.settings.IsFinalSet(sets1, sets2));
  }

  /** Closing a set or starting a break does not look at the phase being
      left. */
  lemma ClosingIgnoresPhase(m: Match, phase: Phase, winner: Player, finished: Score<int>)
    ensures CloseSet(m.(phase := phase), winner, finished) == CloseSet(m, winner, finished)
    ensures StartBreak(m.(phase := phase)) == StartBreak(m)
  {
  }

  /** A game won inside a game phase: the split revision's `finishGem`
      through the set counter does what TennisMatch.java:145-155 does. */
  lemma FinishGemAgreesWithGameWon(m: Match, phase: Phase, winner: Player)
    requires Inv(m) && m.phase.GemInProgress? && m.players.Has(winner)
    ensures SplitPhases.FinishGem(m.(phase := phase), winner) == GameWon(m, winner, m.players.Opponent(winner))
  {
    SetCounterOfReachableMatch(m);
    var c := SplitPhases.CurrentSetCounter(m).value;
    var current := m.setScore.value;
    var loser := m.players.Opponent(winner);
    assert current.entries[winner] >= 0 && current.entries[loser] >= 0;
    assert Undecided(current.entries[winner], current.entries[loser], 6);
    assert c.variant != AdvantageSet ==>
      current.entries[winner] <= 6 && current.entries[loser] <= 6 && !(current.entries[winner] == 6 && current.entries[loser] == 6);
    FinishGemOnOpenSet(m, phase, winner, c);
  }

  /** The same, from the facts about the open set it needs. */
  lemma FinishGemOnOpenSet(m: Match, phase: Phase, winner: Player, c: SetCounter)
    requires m.players.Distinct() && m.players.Has(winner)
    requires SplitPhases.CurrentSetCounter(m) == Ok(c) && c.players == m.players
    requires var current := m.setScore.value;
      var games := current.entries[winner];
      var loserGames := current.entries[m.players.Opponent(winner)];
      games >= 0 && loserGames >= 0 && Undecided(games, loserGames, 6)
      && (c.variant != AdvantageSet ==> games <= 6 && loserGames <= 6 && !(games == 6 && loserGames == 6))
    ensures SplitPhases.FinishGem(m.(phase := phase), winner) == GameWon(m, winner, m.players.Opponent(winner))
  {
    var loser := m.players.Opponent(winner);
    var current := m.setScore.value;
    var games := current.entries[winner];
    var loserGames := current.entries[loser];
    var m' := m.(phase := phase);
    assert SplitPhases.CurrentSetCounter(m') == Ok(c);
    var after := current.Put(winner, games + 1);
    var increased := c.(score := after);
    var won := games + 1 >= 6 && games + 1 - loserGames >= 2;
    OpenSetTakesGame(c, current, winner, loser);
    FinishGemUnfolds(m', winner, c, increased, won);
    GameWonUnfolds(m, winner, won);
    if won {
      ClosingIgnoresPhase(m, phase, winner, after);
    } else {
      assert m'.(setScore := Some(after)) == m.(setScore := Some(after)).(phase := phase);
      ClosingIgnoresPhase(m.(setScore := Some(after)), phase, winner, after);
    }
  }

  /** The set counter of an open set takes the game, and its verdict is the
      inline six-and-two-clear test. */
  lemma OpenSetTakesGame(c: SetCounter, current: Score<int>, winner: Player, loser: Player)
    requires c.players.Distinct() && c.players.Has(winner) && loser == c.players.Opponent(winner)
    requires c.score == current && current.entries.Keys == {winner, loser}
    requires var games := current.entries[winner];
      var loserGames := current.entries[loser];
      games >= 0 && loserGames >= 0 && Undecided(games, loserGames, 6)
      && (c.variant != AdvantageSet ==> games <= 6 && loserGames <= 6 && !(games == 6 && loserGames == 6))
    ensures var games := current.entries[winner];
      var loserGames := current.entries[loser];
      var increased := c.(score := current.Put(winner, games + 1));
      c.Increase(winner) == Ok(increased)
      && increased.IsWonInLastGem(winner) == Ok(games + 1 >= 6 && games + 1 - loserGames >= 2)
  {
    var games := current.entries[winner];
    var loserGames := current.entries[loser];
    PairAsOf(current, winner, loser);
    GameSetTestAgreesWithVariant(c.variant, c.players, winner, games, loserGames);
    PairAsOf(current.Put(winner, games + 1), winner, loser);
  }

  /** `finishGem` once the counter's verdict is known. */
  lemma FinishGemUnfolds(m: Match, winner: Player, c: SetCounter, increased: SetCounter, won: bool)
    requires SplitPhases.CurrentSetCounter(m) == Ok(c)
    requires c.Increase(winner) == Ok(increased) && increased.IsWonInLastGem(winner) == Ok(won)
    ensures SplitPhases.FinishGem(m, winner)
      == if won then CloseSet(m, winner, increased.score) else StartBreak(m.(setScore := Some(increased.score)))
  {
  }

  /** The split game phase once the counter has taken the point. */
  lemma GamePointUnfolds(m: Match, gem: GemCounter, winner: Player, incremented: GemCounter, won: bool)
    requires gem.Valid() && gem.Increment(winner) == Ok(incremented) && incremented.HasWon(winner) == Ok(won)
    ensures SplitPhases.GamePoint(m, gem, winner)
      == if won then SplitPhases.FinishGem(m.(phase := GemInProgress(incremented)), winner)
         else Ok(m.(phase := GemInProgress(incremented)))
  {
  }

  /** Facts about a game position that the inline rules can reach, for a
      point won by one of the players. */
  lemma ReachableGameFacts(m: Match, gem: GemCounter, winner: Player)
    requires Inv(m) && m.phase == GemInProgress(gem) && m.players.Has(winner)
    ensures var loser := m.players.Opponent(winner);
      var s := gem.score;
      gem.Valid() && loser != winner && s.entries.Keys == {winner, loser}
      && s == Of(winner, s.entries[winner], loser, s.entries[loser])
      && s.Get(winner) == Ok(s.entries[winner]) && s.Other(winner) == Ok(s.entries[loser])
      && s.entries[winner] != Gem && s.entries[loser] != Gem
      && (gem.AdvantageCounter? <==> m.settings.gemScoringType == WithAdvantage)
      && (gem.AdvantageCounter? ==> gem.players == m.players)
      && (gem.GoldenBallCounter? ==> s.entries[winner] != Advantage && s.entries[loser] != Advantage)
      && (gem.AdvantageCounter? && s.entries[loser] == Advantage ==> s.entries[winner] == Fourty)
      && (gem.AdvantageCounter? && s.entries[winner] == Advantage ==> s.entries[loser] == Fourty)
  {
    var loser := m.players.Opponent(winner);
    var s := gem.score;
    KeyedByTwoIsWellFormed(s, m.players.player1, m.players.player2);
    PairAsOf(s, winner, loser);
    OtherOfTwoPlayers(winner, s.entries[winner], loser, s.entries[loser]);
  }

  /** A point for a player in a game: the split phase with its counter does
      what TennisMatch.java:135-158 does, and a point for someone else is
      refused the same way. */
  lemma GamePointsAgree(m: Match, gem: GemCounter, winner: Player)
    requires Inv(m) && m.phase == GemInProgress(gem)
    ensures SplitPhases.GamePoint(m, gem, winner) == GemPointWon(m, gem, winner)
  {
    KeyedByTwoIsWellFormed(gem.score, m.players.player1, m.players.player2);
    if !m.players.Has(winner) {
      assert gem.score.Get(winner) == Err(NoSuchPlayer);
    } else {
      ReachableGameFacts(m, gem, winner);
      var loser := m.players.Opponent(winner);
      var winnerPoints := gem.score.entries[winner];
      var loserPoints := gem.score.entries[loser];
      var withAdvantage := m.settings.gemScoringType == WithAdvantage;
      if withAdvantage && loserPoints == Advantage {
        DeucePointsAgree(m, gem, winner);
      } else if (withAdvantage && (winnerPoints == Advantage || (winnerPoints == Fourty && Below(loserPoints, Fourty))))
            || (m.settings.gemScoringType == WithGoldenBall && winnerPoints == Fourty) {
        GameWinningPointsAgree(m, gem, winner);
      } else {
        StepPointsAgree(m, gem, winner);
      }
    }
  }

  lemma DeucePointsAgree(m: Match, gem: GemCounter, winner: Player)
    requires Inv(m) && m.phase == GemInProgress(gem) && m.players.Has(winner)
    requires m.settings.gemScoringType == WithAdvantage && gem.score.entries[m.players.Opponent(winner)] == Advantage
    ensures SplitPhases.GamePoint(m, gem, winner) == GemPointWon(m, gem, winner)
  {
    ReachableGameFacts(m, gem, winner);
    var loser := m.players.Opponent(winner);
    var s := gem.score;
    AdvantageDeuce(gem.players, s, winner, Fourty);
    var incremented := AdvantageCounter(gem.players, Deuce(gem.players));
    assert Deuce(gem.players).entries == s.Put(loser, Fourty).entries;
    assert incremented.HasWon(winner) == Ok(false);
    GamePointUnfolds(m, gem, winner, incremented, false);
    assert s.Get(winner) == Ok(Fourty) && s.Get(loser) == Ok(Advantage);
    assert GemPointWon(m, gem, winner) == Ok(m.(phase := GemInProgress(gem.WithScore(s.Put(loser, Fourty)))));
  }

  lemma GameWinningPointsAgree(m: Match, gem: GemCounter, winner: Player)
    requires Inv(m) && m.phase == GemInProgress(gem) && m.players.Has(winner)
    requires var w := gem.score.entries[winner];
      var l := gem.score.entries[m.players.Opponent(winner)];
      var withAdvantage := m.settings.gemScoringType == WithAdvantage;
      !(withAdvantage && l == Advantage)
      && ((withAdvantage && (w == Advantage || (w == Fourty && Below(l, Fourty))))
          || (m.settings.gemScoringType == WithGoldenBall && w == Fourty))
    ensures SplitPhases.GamePoint(m, gem, winner) == GemPointWon(m, gem, winner)
  {
    ReachableGameFacts(m, gem, winner);
    var loser := m.players.Opponent(winner);
    var s := gem.score;
    var incremented := gem.WithScore(s.Put(winner, Gem));
    PointOrder(s.entries[winner], s.entries[loser], Fourty);
    assert gem.Increment(winner) == Ok(incremented);
    assert incremented.HasWon(winner) == Ok(true);
    GamePointUnfolds(m, gem, winner, incremented, true);
    FinishGemAgreesWithGameWon(m, GemInProgress(incremented), winner);
    assert s.Get(winner) == Ok(s.entries[winner]) && s.Get(loser) == Ok(s.entries[loser]);
    assert GemPointWon(m, gem, winner) == GameWon(m, winner, loser);
  }

  lemma StepPointsAgree(m: Match, gem: GemCounter, winner: Player)
    requires Inv(m) && m.phase == GemInProgress(gem) && m.players.Has(winner)
    requires var w := gem.score.entries[winner];
      var l := gem.score.entries[m.players.Opponent(winner)];
      var withAdvantage := m.settings.gemScoringType == WithAdvantage;
      !(withAdvantage && l == Advantage)
      && !((withAdvantage && (w == Advantage || (w == Fourty && Below(l, Fourty))))
           || (m.settings.gemScoringType == WithGoldenBall && w == Fourty))
    ensures SplitPhases.GamePoint(m, gem, winner) == GemPointWon(m, gem, winner)
  {
    ReachableGameFacts(m, gem, winner);
    var loser := m.players.Opponent(winner);
    var s := gem.score;
    var points := s.entries[winner];
    PointOrder(points, s.entries[loser], Fourty);
    var next := Next(points).value;
    var incremented := gem.WithScore(s.Put(winner, next));
    assert SetIncremented(s, winner, points) == Ok(s.Put(winner, next));
    assert gem.Increment(winner) == Ok(incremented);
    assert incremented.HasWon(winner) == Ok(false);
    GamePointUnfolds(m, gem, winner, incremented, false);
    assert s.Get(winner) == Ok(points) && s.Get(loser) == Ok(s.entries[loser]);
    assert GemPointWon(m, gem, winner) == Ok(m.(phase := GemInProgress(incremented)));
  }

  /** The split tiebreak phase once the counter has taken the point. */
  lemma TiebreakPointUnfolds(m: Match, first: Player, tiebreak: TiebreakCounter, winner: Player, incremented: TiebreakCounter)
    requires tiebreak.Valid() && tiebreak.Increment(winner) == Ok(incremented) && incremented.IsWon(winner).Ok?
    ensures var playing := m.(phase := TiebreakInPlay(first, incremented));
      SplitPhases.TiebreakPoint(m, first, tiebreak, winner)
      == if incremented.IsWon(winner).value then
           (if SplitPhases.FinishGem(playing, winner).Ok?
            then Ok(SplitPhases.FinishGem(playing, winner).value.(server := Some(m.players.Opponent(first))))
            else Err(SplitPhases.FinishGem(playing, winner).error))
         else if incremented.ShouldChangeServingPlayer() then ChangeServingPlayer(playing)
         else Ok(playing)
  {
  }

  /** A tiebreak point: the split phase with its counters does what
      TennisMatch.java:246-267 does, and a point for someone else is refused
      the same way. */
  lemma TiebreakPointsAgree(m: Match, first: Player, tiebreak: TiebreakCounter, winner: Player)
    requires Inv(m) && m.phase == TiebreakInPlay(first, tiebreak)
    ensures SplitPhases.TiebreakPoint(m, first, tiebreak, winner) == TiebreakPointWon(m, first, tiebreak, winner)
  {
    assert RunningTiebreak(tiebreak, m.players, 7);
    if !m.players.Has(winner) {
      TiebreakStrangerAgree(m, first, tiebreak, winner, 7);
    } else if tiebreak.score.entries[winner] + 1 >= 7
      && tiebreak.score.entries[winner] + 1 - tiebreak.score.entries[m.players.Opponent(winner)] >= 2 {
      TiebreakWinningPointsAgree(m, first, tiebreak, winner);
    } else {
      TiebreakRunsOnAgree(m, first, tiebreak, winner);
    }
  }

  /** A point for someone who is not playing is refused by both revisions. */
  lemma TiebreakStrangerAgree(m: Match, first: Player, tiebreak: TiebreakCounter, winner: Player, target: int)
    requires m.players.Distinct() && !m.players.Has(winner) && RunningTiebreak(tiebreak, m.players, target)
    ensures SplitPhases.TiebreakPoint(m, first, tiebreak, winner) == Err(NoSuchPlayer)
    ensures TiebreakPointWon(m, first, tiebreak, winner) == Err(NoSuchPlayer)
    ensures SplitPhases.SupertiebreakPoint(m, tiebreak, winner) == Err(NoSuchPlayer)
    ensures SupertiebreakPointWon(m, tiebreak, winner) == Err(NoSuchPlayer)
  {
    KeyedByTwoIsWellFormed(tiebreak.score, m.players.player1, m.players.player2);
    assert tiebreak.Valid();
    assert tiebreak.score.Get(winner) == Err(NoSuchPlayer);
  }

  /** A tiebreak point that does not end the tiebreak: both revisions hand
      the serve over after an odd number of points. */
  lemma TiebreakRunsOnAgree(m: Match, first: Player, tiebreak: TiebreakCounter, winner: Player)
    requires m.players.Distinct() && m.players.Has(winner) && RunningTiebreak(tiebreak, m.players, 7)
    requires var points := tiebreak.score.entries[winner] + 1;
      !(points >= 7 && points - tiebreak.score.entries[m.players.Opponent(winner)] >= 2)
    ensures SplitPhases.TiebreakPoint(m, first, tiebreak, winner) == TiebreakPointWon(m, first, tiebreak, winner)
  {
    RunningTiebreakFacts(m, tiebreak, 7, winner);
    var points := tiebreak.score.entries[winner] + 1;
    var incremented := tiebreak.(score := tiebreak.score.Put(winner, points));
    TiebreakPointUnfolds(m, first, tiebreak, winner, incremented);
    TiebreakRunsOnInline(m, first, tiebreak, winner);
  }

  /** The inline tiebreak point that does not end the tiebreak. */
  lemma TiebreakRunsOnInline(m: Match, first: Player, tiebreak: TiebreakCounter, winner: Player)
    requires m.players.Distinct() && m.players.Has(winner) && RunningTiebreak(tiebreak, m.players, 7)
    requires var points := tiebreak.score.entries[winner] + 1;
      !(points >= 7 && points - tiebreak.score.entries[m.players.Opponent(winner)] >= 2)
    ensures var incremented := tiebreak.(score := tiebreak.score.Put(winner, tiebreak.score.entries[winner] + 1));
      var playing := m.(phase := TiebreakInPlay(first, incremented));
      TiebreakPointWon(m, first, tiebreak, winner)
      == if incremented.ShouldChangeServingPlayer() then ChangeServingPlayer(playing) else Ok(playing)
  {
    RunningTiebreakFacts(m, tiebreak, 7, winner);
  }

  lemma TiebreakWinningPointsAgree(m: Match, first: Player, tiebreak: TiebreakCounter, winner: Player)
    requires Inv(m) && m.phase == TiebreakInPlay(first, tiebreak) && m.players.Has(winner)
    requires var points := tiebreak.score.entries[winner] + 1;
      points >= 7 && points - tiebreak.score.entries[m.players.Opponent(winner)] >= 2
    ensures SplitPhases.TiebreakPoint(m, first, tiebreak, winner) == TiebreakPointWon(m, first, tiebreak, winner)
  {
    var current := m.setScore.value;
    assert Tally(current, m.players) && SixAll(current, m.players);
    assert RunningTiebreak(tiebreak, m.players, 7);
    CloseSetKeepsLedger(m, winner, current.Put(winner, 7));
    TiebreakWinInline(m, first, tiebreak, winner, current);
    SetCounterOfReachableMatch(m);
    var c := SplitPhases.CurrentSetCounter(m).value;
    PairAsOf(current, m.players.player1, m.players.player2);
    assert c == SetAt(c.variant, m.players, 6, 6);
    TiebreakWinSplit(m, first, tiebreak, winner, c);
  }

  /** The split tiebreak at six all: the counter's winning point finishes
      the game, and the set counter closes the set seven-six. */
  lemma TiebreakWinSplit(m: Match, first: Player, tiebreak: TiebreakCounter, winner: Player, c: SetCounter)
    requires m.players.Distinct() && m.players.Has(winner) && RunningTiebreak(tiebreak, m.players, 7)
    requires var points := tiebreak.score.entries[winner] + 1;
      points >= 7 && points - tiebreak.score.entries[m.players.Opponent(winner)] >= 2
    requires m.setScore.Some? && SplitPhases.CurrentSetCounter(m) == Ok(c)
    requires c.variant != AdvantageSet && c == SetAt(c.variant, m.players, 6, 6) && c.score == m.setScore.value
    requires CloseSet(m, winner, m.setScore.value.Put(winner, 7)).Ok?
    ensures SplitPhases.TiebreakPoint(m, first, tiebreak, winner)
      == Ok(CloseSet(m, winner, m.setScore.value.Put(winner, 7)).value.(server := Some(m.players.Opponent(first))))
  {
    RunningTiebreakFacts(m, tiebreak, 7, winner);
    var points := tiebreak.score.entries[winner] + 1;
    var incremented := tiebreak.(score := tiebreak.score.Put(winner, points));
    TiebreakPointUnfolds(m, first, tiebreak, winner, incremented);
    var playing := m.(phase := TiebreakInPlay(first, incremented));
    assert SplitPhases.CurrentSetCounter(playing) == Ok(c);
    SixAllGoesToSevenSix(c.variant, m.players, winner);
    var increased := c.Increase(winner).value;
    assert increased.score.entries == m.setScore.value.Put(winner, 7).entries;
    FinishGemUnfolds(playing, winner, c, increased, true);
    ClosingIgnoresPhase(m, TiebreakInPlay(first, incremented), winner, increased.score);
  }

  /** The split super-tiebreak phase once the counter has taken the point. */
  lemma SupertiebreakPointUnfolds(m: Match, supertiebreak: TiebreakCounter, winner: Player, incremented: TiebreakCounter)
    requires supertiebreak.Valid() && supertiebreak.Increment(winner) == Ok(incremented) && incremented.IsWon(winner).Ok?
    ensures var playing := m.(phase := SupertiebreakInPlay(incremented));
      SplitPhases.SupertiebreakPoint(m, supertiebreak, winner)
      == if incremented.IsWon(winner).value then
           (if m.settings.finalSetTieResolutionType == ResolveBySuperTiebreak then SplitPhases.FinishGem(playing, winner)
            else CloseSet(playing, winner, incremented.score))
         else if incremented.ShouldChangeServingPlayer() then ChangeServingPlayer(playing)
         else Ok(playing)
  {
  }

  /** A super-tiebreak point that does not end it: both revisions hand the
      serve over after an odd number of points. */
  lemma SupertiebreakRunsOnAgree(m: Match, supertiebreak: TiebreakCounter, winner: Player)
    requires m.players.Distinct() && m.players.Has(winner) && RunningTiebreak(supertiebreak, m.players, 10)
    requires var points := supertiebreak.score.entries[winner] + 1;
      !(points >= 10 && points - supertiebreak.score.entries[m.players.Opponent(winner)] >= 2)
    ensures SplitPhases.SupertiebreakPoint(m, supertiebreak, winner) == SupertiebreakPointWon(m, supertiebreak, winner)
  {
    RunningTiebreakFacts(m, supertiebreak, 10, winner);
    var points := supertiebreak.score.entries[winner] + 1;
    var incremented := supertiebreak.(score := supertiebreak.score.Put(winner, points));
    SupertiebreakPointUnfolds(m, supertiebreak, winner, incremented);
    SupertiebreakRunsOnInline(m, supertiebreak, winner);
  }

  /** The inline super-tiebreak point that does not end it. */
  lemma SupertiebreakRunsOnInline(m: Match, supertiebreak: TiebreakCounter, winner: Player)
    requires m.players.Distinct() && m.players.Has(winner) && RunningTiebreak(supertiebreak, m.players, 10)
    requires var points := supertiebreak.score.entries[winner] + 1;
      !(points >= 10 && points - supertiebreak.score.entries[m.players.Opponent(winner)] >= 2)
    ensures var incremented := supertiebreak.(score := supertiebreak.score.Put(winner, supertiebreak.score.entries[winner] + 1));
      var playing := m.(phase := SupertiebreakInPlay(incremented));
      SupertiebreakPointWon(m, supertiebreak, winner)
      == if incremented.ShouldChangeServingPlayer() then ChangeServingPlayer(playing) else Ok(playing)
  {
    RunningTiebreakFacts(m, supertiebreak, 10, winner);
  }

  /** In a deciding set resolved by a super tiebreak, both revisions end
      the match on the super tiebreak's winning point and record the set
      seven-six. */
  lemma SupertiebreakWinsAgreeInDecidingSet(m: Match, supertiebreak: TiebreakCounter, winner: Player)
    requires Inv(m) && m.phase == SupertiebreakInPlay(supertiebreak) && m.players.Has(winner)
    requires m.settings.matchFormat != BestOfTwoWithSuperTiebreak
    requires var points := supertiebreak.score.entries[winner] + 1;
      points >= 10 && points - supertiebreak.score.entries[m.players.Opponent(winner)] >= 2
    ensures SplitPhases.SupertiebreakPoint(m, supertiebreak, winner) == SupertiebreakPointWon(m, supertiebreak, winner)
    ensures SupertiebreakPointWon(m, supertiebreak, winner).Ok?
    ensures SupertiebreakPointWon(m, supertiebreak, winner).value.MatchWinner() == Some(winner)
  {
    var current := m.setScore.value;
    assert Tally(current, m.players) && SuperTiebreakDue(m);
    assert m.settings.finalSetTieResolutionType == ResolveBySuperTiebreak && Deciding(m) && SixAll(current, m.players);
    assert RunningTiebreak(supertiebreak, m.players, 10);
    SupertiebreakWinInline(m, supertiebreak, winner);
    SetCounterOfReachableMatch(m);
    var c := SplitPhases.CurrentSetCounter(m).value;
    PairAsOf(current, m.players.player1, m.players.player2);
    assert c == SetAt(c.variant, m.players, 6, 6);
    SupertiebreakWinSplit(m, supertiebreak, winner, c);
    assert m.matchScore.entries[winner] + 1 == m.settings.matchFormat.SetsToWin();
  }

  /** The split super tiebreak at six all of a deciding set: the counter's
      winning point finishes the game and the set counter closes the set
      seven-six. */
  lemma SupertiebreakWinSplit(m: Match, supertiebreak: TiebreakCounter, winner: Player, c: SetCounter)
    requires m.players.Distinct() && m.players.Has(winner) && RunningTiebreak(supertiebreak, m.players, 10)
    requires var points := supertiebreak.score.entries[winner] + 1;
      points >= 10 && points - supertiebreak.score.entries[m.players.Opponent(winner)] >= 2
    requires m.settings.finalSetTieResolutionType == ResolveBySuperTiebreak
    requires m.setScore.Some? && SplitPhases.CurrentSetCounter(m) == Ok(c)
    requires c.variant != AdvantageSet && c == SetAt(c.variant, m.players, 6, 6) && c.score == m.setScore.value
    ensures SplitPhases.SupertiebreakPoint(m, supertiebreak, winner)
      == CloseSet(m, winner, m.setScore.value.Put(winner, 7))
  {
    RunningTiebreakFacts(m, supertiebreak, 10, winner);
    var points := supertiebreak.score.entries[winner] + 1;
    var incremented := supertiebreak.(score := supertiebreak.score.Put(winner, points));
    SupertiebreakPointUnfolds(m, supertiebreak, winner, incremented);
    var playing := m.(phase := SupertiebreakInPlay(incremented));
    assert SplitPhases.CurrentSetCounter(playing) == Ok(c);
    SixAllGoesToSevenSix(c.variant, m.players, winner);
    var increased := c.Increase(winner).value;
    assert increased.score.entries == m.setScore.value.Put(winner, 7).entries;
    FinishGemUnfolds(playing, winner, c, increased, true);
    ClosingIgnoresPhase(m, SupertiebreakInPlay(incremented), winner, increased.score);
  }

  /** In the two-set format no set closes the match, so neither a game nor
      a finished set of the split revision ever ends it. */
  lemma TwoSetFormatNeverClosesMatch(m: Match, winner: Player, finishedSet: Score<int>)
    requires m.settings.matchFormat == BestOfTwoWithSuperTiebreak
    ensures CloseSet(m, winner, finishedSet).Ok? ==> CloseSet(m, winner, finishedSet).value.phase == BreakInPlay
    ensures SplitPhases.FinishGem(m, winner).Ok? ==> SplitPhases.FinishGem(m, winner).value.phase == BreakInPlay
  {
  }

  /** The one place the revisions part: in the two-set format the inline
      super tiebreak ends the match on its winning point, while the split
      revision's super tiebreak only closes a set and goes to a break. */
  lemma SupertiebreakDivergesInTwoSetFormat(m: Match, supertiebreak: TiebreakCounter, winner: Player)
    requires Inv(m) && m.phase == SupertiebreakInPlay(supertiebreak) && m.players.Has(winner)
    requires m.settings.matchFormat == BestOfTwoWithSuperTiebreak
    requires var points := supertiebreak.score.entries[winner] + 1;
      points >= 10 && points - supertiebreak.score.entries[m.players.Opponent(winner)] >= 2
    ensures SupertiebreakPointWon(m, supertiebreak, winner).Ok?
    ensures SupertiebreakPointWon(m, supertiebreak, winner).value.MatchWinner() == Some(winner)
    ensures SplitPhases.SupertiebreakPoint(m, supertiebreak, winner).Ok? ==>
      SplitPhases.SupertiebreakPoint(m, supertiebreak, winner).value.phase == BreakInPlay
  {
    assert RunningTiebreak(supertiebreak, m.players, 10);
    SupertiebreakWinInline(m, supertiebreak, winner);
    RunningTiebreakFacts(m, supertiebreak, 10, winner);
    var points := supertiebreak.score.entries[winner] + 1;
    var incremented := supertiebreak.(score := supertiebreak.score.Put(winner, points));
    SupertiebreakPointUnfolds(m, supertiebreak, winner, incremented);
    var playing := m.(phase := SupertiebreakInPlay(incremented));
    TwoSetFormatNeverClosesMatch(playing, winner, incremented.score);
  }

  /** Every other super-tiebreak point: the revisions agree, including a
      point for someone who is not playing. */
  lemma SupertiebreakPointsAgree(m: Match, supertiebreak: TiebreakCounter, winner: Player)
    requires Inv(m) && m.phase == SupertiebreakInPlay(supertiebreak)
    requires m.players.Has(winner) && m.settings.matchFormat == BestOfTwoWithSuperTiebreak ==>
      var points := supertiebreak.score.entries[winner] + 1;
      !(points >= 10 && points - supertiebreak.score.entries[m.players.Opponent(winner)] >= 2)
    ensures SplitPhases.SupertiebreakPoint(m, supertiebreak, winner) == SupertiebreakPointWon(m, supertiebreak, winner)
  {
    assert RunningTiebreak(supertiebreak, m.players, 10);
    if !m.players.Has(winner) {
      TiebreakStrangerAgree(m, m.players.player1, supertiebreak, winner, 10);
    } else if supertiebreak.score.entries[winner] + 1 >= 10
      && supertiebreak.score.entries[winner] + 1 - supertiebreak.score.entries[m.players.Opponent(winner)] >= 2 {
      SupertiebreakWinsAgreeInDecidingSet(m, supertiebreak, winner);
    } else {
      SupertiebreakRunsOnAgree(m, supertiebreak, winner);
    }
  }

  /** Resuming after a break: the split revision asks its set counter for a
      tiebreak or super tiebreak where TennisMatch.java:197-218 tests the
      games and sets by hand, and the two pick the same phase. */
  lemma ResumeAgree(m: Match)
    requires Inv(m) && m.setScore.Some?
    ensures SplitPhases.ResumeAfterBreak(m) == TennisMatch.ResumeAfterBreak(m)
  {
    SetCounterOfReachableMatch(m);
    var c := SplitPhases.CurrentSetCounter(m).value;
    var sets1 := m.matchScore.entries[m.players.player1];
    var sets2 := m.matchScore.entries[m.players.player2];
    SuperTiebreakDecidesMatch(m.settings.matchFormat, sets1, sets2);
    var current := m.setScore.value;
    assert m.matchScore.Get(m.players.player1) == Ok(sets1);
    assert m.matchScore.Get(m.players.player2) == Ok(sets2);
    assert CurrentSet(m) == Ok(current);
    assert current.Get(m.players.player1) == Ok(current.entries[m.players.player1]);
    assert current.Get(m.players.player2) == Ok(current.entries[m.players.player2]);
  }

  /** Starting play: the revisions accept and refuse alike and reach the
      same match; they differ only in what a refusal leaves behind, the
      inline revision having installed a fresh set before looking at the
      phase. */
  lemma StartPlaysAgree(m: Match)
    requires Inv(m)
    ensures SplitPhases.SplitStartPlay(m).Accepted? <==> StartPlay(m).Accepted?
    ensures SplitPhases.SplitStartPlay(m).Accepted? ==> SplitPhases.SplitStartPlay(m).next == StartPlay(m).next
    ensures SplitPhases.SplitStartPlay(m).Rejected? ==>
      SplitPhases.SplitStartPlay(m).error == StartPlay(m).error
      && StartPlay(m).next == EnsureSetStarted(m)
      && (m.phase.BreakInPlay? || SplitPhases.SplitStartPlay(m).next == m)
  {
    var started := EnsureSetStarted(m);
    if m.phase.BreakInPlay? {
      FreshTally(m.players);
      assert Inv(started);
      ResumeAgree(started);
    }
  }

  /** Registering a point: the revisions agree on every reachable match,
      except on the winning point of a super tiebreak in the two-set
      format (see SupertiebreakDivergesInTwoSetFormat). */
  lemma RegisterPointsAgree(m: Match, winner: Player)
    requires Inv(m)
    requires m.players.Has(winner) && m.settings.matchFormat == BestOfTwoWithSuperTiebreak && m.phase.SupertiebreakInPlay? ==>
      var points := m.phase.supertiebreak.score.entries[winner] + 1;
      !(points >= 10 && points - m.phase.supertiebreak.score.entries[m.players.Opponent(winner)] >= 2)
    ensures SplitPhases.SplitRegisterPoint(m, winner) == RegisterPoint(m, winner)
  {
    match m.phase
    case GemInProgress(gem) => GamePointsAgree(m, gem, winner);
    case TiebreakInPlay(first, tiebreak) => TiebreakPointsAgree(m, first, tiebreak, winner);
    case SupertiebreakInPlay(supertiebreak) =>
      assert RunningTiebreak(supertiebreak, m.players, 10);
      SupertiebreakPointsAgree(m, supertiebreak, winner);
    case _ =>
  }
}
