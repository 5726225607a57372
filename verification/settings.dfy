/** Match configuration: the format (MatchFormat.java), the game scoring
    policy, the final-set tie resolution and the settings record that
    bundles them (MatchSettings.java). */
module Settings {

  /** How many sets a match is played over. */
  datatype MatchFormat = BestOfThree | BestOfFive | BestOfTwoWithSuperTiebreak {

    /** The number of sets a player needs to take the match. */
    function SetsToWin(): nat {
      match this
      case BestOfFive => 3
      case _ => 2
    }

    /** `isMatchFinished(winningPlayerScore)`: an equality test on the sets
        of the player who just won a set. */
    predicate IsMatchFinished(winnerSets: int) {
      match this
      case BestOfThree => winnerSets == 2
      case BestOfFive => winnerSets == 3
      case BestOfTwoWithSuperTiebreak => winnerSets == 2
    }

    /** `needsSuperTiebreak(player1Sets, player2Sets)`: only the two-set
        format decides a one-set-all match by a super tiebreak. */
    predicate NeedsSuperTiebreak(sets1: int, sets2: int) {
      match this
      case BestOfThree => false
      case BestOfFive => false
      case BestOfTwoWithSuperTiebreak => sets1 == 1 && sets2 == 1
    }

    /** `isFinalSet(player1Sets, player2Sets)`: the set about to be played
        decides the match; the two-set format has no such set. */
    predicate IsFinalSet(sets1: int, sets2: int) {
      match this
      case BestOfThree => sets1 == 1 && sets2 == 1
      case BestOfFive => sets1 == 2 && sets2 == 2
      case BestOfTwoWithSuperTiebreak => false
    }
  }

  /** How a game is scored: deuce and advantage, or a deciding point at
      forty-all ("golden ball"). */
  datatype GemScoringType = WithAdvantage | WithGoldenBall

  /** How a final set that reaches six games all is decided. */
  datatype TieResolutionType = ResolveByAdvantage | ResolveByTiebreak | ResolveBySuperTiebreak

  /** The immutable settings record; its fields are the constructor's
      arguments and its predicates ask the format. */
  datatype MatchSettings = MatchSettings(
    matchFormat: MatchFormat,
    gemScoringType: GemScoringType,
    finalSetTieResolutionType: TieResolutionType)
  {
    predicate NeedsSuperTiebreak(sets1: int, sets2: int) {
      matchFormat.NeedsSuperTiebreak(sets1, sets2)
    }

    predicate IsFinalSet(sets1: int, sets2: int) {
      matchFormat.IsFinalSet(sets1, sets2)
    }

    predicate IsMatchFinished(winnerSets: int) {
      matchFormat.IsMatchFinished(winnerSets)
    }
  }

  /** A match is finished exactly when the set winner reaches the format's
      number of sets to win: an equality, so a count past it does not
      finish the match. */
  lemma FinishedExactlyAtSetsToWin(f: MatchFormat, winnerSets: int)
    ensures f.IsMatchFinished(winnerSets) <==> winnerSets == f.SetsToWin()
    ensures !f.IsMatchFinished(f.SetsToWin() + 1)
  {
  }

  /** The final set is played at one set short of victory each; whoever wins
      it wins the match. The two-set format has no final set. */
  lemma FinalSetDecidesMatch(f: MatchFormat, sets1: int, sets2: int)
    ensures f.IsFinalSet(sets1, sets2) <==>
      f != BestOfTwoWithSuperTiebreak && sets1 == f.SetsToWin() - 1 && sets2 == f.SetsToWin() - 1
    ensures f.IsFinalSet(sets1, sets2) ==> f.IsMatchFinished(sets1 + 1) && f.IsMatchFinished(sets2 + 1)
  {
  }

  /** A match-level super tiebreak is needed only in the two-set format at one
      set all, and whoever wins it wins the match. */
  lemma SuperTiebreakDecidesMatch(f: MatchFormat, sets1: int, sets2: int)
    ensures f.NeedsSuperTiebreak(sets1, sets2) <==> f == BestOfTwoWithSuperTiebreak && sets1 == 1 && sets2 == 1
    ensures f.NeedsSuperTiebreak(sets1, sets2) ==> f.IsMatchFinished(sets1 + 1) && f.IsMatchFinished(sets2 + 1)
  {
  }

  /** No format asks for a final set and a match-level super tiebreak at the
      same set score. */
  lemma NeverFinalSetAndSuperTiebreak(f: MatchFormat, sets1: int, sets2: int)
    ensures !(f.IsFinalSet(sets1, sets2) && f.NeedsSuperTiebreak(sets1, sets2))
  {
  }

  /** The settings answer every question exactly as their format does. */
  lemma SettingsAnswerLikeFormat(s: MatchSettings, sets1: int, sets2: int, winnerSets: int)
    ensures s.NeedsSuperTiebreak(sets1, sets2) == s.matchFormat.NeedsSuperTiebreak(sets1, sets2)
    ensures s.IsFinalSet(sets1, sets2) == s.matchFormat.IsFinalSet(sets1, sets2)
    ensures s.IsMatchFinished(winnerSets) == s.matchFormat.IsMatchFinished(winnerSets)
  {
  }
}
