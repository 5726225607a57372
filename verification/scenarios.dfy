/** Short matches played event by event through the inline revision, and
    the single-point rules they are built from. */
module Scenarios {
  import opened Base
  import opened Players
  import opened Scores
  import opened GemPoints
  import opened Settings
  import opened GemCounters
  import opened MatchState
  import opened TennisMatch

  /** Feeding events in two batches is feeding them all at once. */
  lemma {:induction false} RunConcatenates(m: Match, first: seq<Event>, rest: seq<Event>)
    ensures Run(m, first + rest) == Run(Run(m, first), rest)
    decreases |first|
  {
    if first != [] {
      assert (first + rest)[0] == first[0] && (first + rest)[1..] == first[1..] + rest;
      RunConcatenates(Step(m, first[0]).next, first[1..], rest);
    } else {
      assert first + rest == rest;
    }
  }

  /** A point below forty, the opponent holding no advantage, moves the
      winner one step up and changes nothing else. */
  lemma OrdinaryPoint(m: Match, gem: GemCounter, winner: Player, a: GemPoint, b: GemPoint)
    requires m.players.Distinct() && m.players.Has(winner)
    requires m.phase == GemInProgress(gem) && gem.score == Of(winner, a, m.players.Opponent(winner), b)
    requires m.settings.gemScoringType == WithAdvantage && Below(a, Fourty) && b != Advantage
    ensures Next(a).Some?
    ensures Step(m, Point(winner))
      == Accepted(m.(phase := GemInProgress(gem.WithScore(Of(winner, Next(a).value, m.players.Opponent(winner), b)))))
  {
    var loser := m.players.Opponent(winner);
    PointOrder(a, b, Fourty);
    assert gem.score.Get(winner) == Ok(a) && gem.score.Get(loser) == Ok(b);
    assert gem.score.Put(winner, Next(a).value) == Of(winner, Next(a).value, loser, b);
  }

  /** From forty against less than forty, the point takes the game; short
      of six games the set goes on and play breaks with the serve passed. */
  lemma GamePointFromFourty(m: Match, gem: GemCounter, winner: Player, b: GemPoint, games: int, loserGames: int)
    requires m.players.Distinct() && m.players.Has(winner) && m.server.Some?
    requires m.phase == GemInProgress(gem) && gem.score == Of(winner, Fourty, m.players.Opponent(winner), b)
    requires m.settings.gemScoringType == WithAdvantage && Below(b, Fourty)
    requires m.setScore == Some(Of(winner, games, m.players.Opponent(winner), loserGames)) && games + 1 < 6
    ensures Step(m, Point(winner))
      == Accepted(m.(setScore := Some(Of(winner, games + 1, m.players.Opponent(winner), loserGames)),
                     server := Some(m.players.Opponent(m.server.value)), phase := BreakInPlay))
  {
    var loser := m.players.Opponent(winner);
    var current := m.setScore.value;
    assert GemPointWon(m, gem, winner) == GameWon(m, winner, loser) by {
      assert gem.score.Get(winner) == Ok(Fourty) && gem.score.Get(loser) == Ok(b);
    }
    GameShortOfSet(m, winner, games, loserGames);
  }

  /** A game that leaves the winner short of six games only adds it to the
      set and breaks. */
  lemma GameShortOfSet(m: Match, winner: Player, games: int, loserGames: int)
    requires m.players.Distinct() && m.players.Has(winner)
    requires m.setScore == Some(Of(winner, games, m.players.Opponent(winner), loserGames)) && games + 1 < 6
    ensures GameWon(m, winner, m.players.Opponent(winner))
      == StartBreak(m.(setScore := Some(Of(winner, games + 1, m.players.Opponent(winner), loserGames))))
  {
    var loser := m.players.Opponent(winner);
    var current := m.setScore.value;
    assert current.Put(winner, games + 1) == Of(winner, games + 1, loser, loserGames);
    assert CurrentSet(m) == Ok(current) && current.Get(winner) == Ok(games);
    assert current.Put(winner, games + 1).Get(loser) == Ok(loserGames);
  }

  function Alice(): Player { SinglesPlayerNamed("Alice") }
  function Bob(): Player { SinglesPlayerNamed("Bob") }
  function Pair(): Players { Players(Alice(), Bob()) }

  /** A best-of-three match, games with advantage, the last set by tiebreak. */
  function Classic(): MatchSettings {
    MatchSettings(BestOfThree, WithAdvantage, ResolveByTiebreak)
  }

  /** The classic match with Alice serving in the first game, Alice on
      `points` and Bob on love. */
  function FirstGame(points: GemPoint): Match {
    Match(Pair(), Classic(), Of(Alice(), 0, Bob(), 0), Some(Of(Alice(), 0, Bob(), 0)), [], Some(Alice()),
          GemInProgress(AdvantageCounter(Pair(), Of(Alice(), points, Bob(), Zero))))
  }

  /** Choosing Alice to serve and starting play opens the first game at
      love all in a fresh set. */
  lemma OpeningOfClassicMatch()
    ensures Run(NewMatch(Pair(), Classic()), [ChooseServer(Alice()), Start]) == FirstGame(Zero)
  {
    var m0 := NewMatch(Pair(), Classic());
    var m1 := Step(m0, ChooseServer(Alice())).next;
    assert m1 == m0.(server := Some(Alice()));
    var m2 := Step(m1, Start).next;
    assert Fresh(Pair(), 0) == Of(Alice(), 0, Bob(), 0);
    assert Fresh(Pair(), Zero) == Of(Alice(), Zero, Bob(), Zero);
    assert m2 == FirstGame(Zero);
    assert Run(m2, []) == m2;
  }

  /** One point for Alice below forty moves her one step up. */
  lemma AliceClimbs(points: GemPoint)
    requires Below(points, Fourty)
    ensures Next(points).Some?
    ensures Run(FirstGame(points), [Point(Alice())]) == FirstGame(Next(points).value)
  {
    var m := FirstGame(points);
    OrdinaryPoint(m, m.phase.gem, Alice(), points, Zero);
    assert Run(Step(m, Point(Alice())).next, []) == Step(m, Point(Alice())).next;
  }

  /** Three points take Alice from love to forty. */
  lemma AliceReachesFourty()
    ensures Run(FirstGame(Zero), [Point(Alice()), Point(Alice()), Point(Alice())]) == FirstGame(Fourty)
  {
    AliceClimbs(Zero);
    AliceClimbs(Fifteen);
    AliceClimbs(Thirty);
    RunConcatenates(FirstGame(Zero), [Point(Alice())], [Point(Alice()), Point(Alice())]);
    RunConcatenates(FirstGame(Fifteen), [Point(Alice())], [Point(Alice())]);
    assert [Point(Alice())] + [Point(Alice()), Point(Alice())] == [Point(Alice()), Point(Alice()), Point(Alice())];
  }

  /** At forty to love Alice's point takes the game. */
  lemma AliceTakesGame()
    ensures Run(FirstGame(Fourty), [Point(Alice())])
      == Match(Pair(), Classic(), Of(Alice(), 0, Bob(), 0), Some(Of(Alice(), 1, Bob(), 0)), [], Some(Bob()), BreakInPlay)
  {
    var m := FirstGame(Fourty);
    GamePointFromFourty(m, m.phase.gem, Alice(), Zero, 0, 0);
    assert Run(Step(m, Point(Alice())).next, []) == Step(m, Point(Alice())).next;
  }

  /** Alice serves and wins the first game to love: one game to nil, no
      set finished yet, and Bob serves once play resumes. */
  lemma FirstGameToLove()
    ensures var m := Run(NewMatch(Pair(), Classic()), [ChooseServer(Alice()), Start, Point(Alice()), Point(Alice()), Point(Alice()), Point(Alice())]);
      m.phase == BreakInPlay && m.server == Some(Bob())
      && m.setScore == Some(Of(Alice(), 1, Bob(), 0)) && m.setHistory == []
  {
    var a := Alice();
    var p := Point(a);
    var m0 := NewMatch(Pair(), Classic());
    var opening := [ChooseServer(a), Start];
    var game := [p, p, p, p];
    assert Run(m0, opening + game) == Run(FirstGame(Zero), game) by {
      OpeningOfClassicMatch();
      RunConcatenates(m0, opening, game);
    }
    assert Run(FirstGame(Zero), game) == Run(FirstGame(Fourty), [p]) by {
      AliceReachesFourty();
      RunConcatenates(FirstGame(Zero), [p, p, p], [p]);
      assert [p, p, p] + [p] == game;
    }
    AliceTakesGame();
    assert opening + game == [ChooseServer(a), Start, p, p, p, p];
  }

  /** The two-set format, games with advantage, a super tiebreak at one
      set all. */
  function TwoSets(): MatchSettings {
    MatchSettings(BestOfTwoWithSuperTiebreak, WithAdvantage, ResolveBySuperTiebreak)
  }

  /** Alice, a set up at five-three and forty-love, wins the point: she
      leads two sets to nil, yet the match is not over and play breaks, as
      the inline set test only ends best-of-three and best-of-five
      matches. */
  lemma TwoSetsToNilDoNotEndTwoSetMatch()
    ensures var m := Match(Pair(), TwoSets(), Of(Alice(), 1, Bob(), 0), Some(Of(Alice(), 5, Bob(), 3)),
                           [Of(Alice(), 6, Bob(), 2)], Some(Alice()),
                           GemInProgress(AdvantageCounter(Pair(), Of(Alice(), Fourty, Bob(), Zero))));
      var o := Step(m, Point(Alice()));
      o.Accepted? && o.next.matchScore == Of(Alice(), 2, Bob(), 0)
      && o.next.setHistory == [Of(Alice(), 6, Bob(), 2), Of(Alice(), 6, Bob(), 3)]
      && o.next.phase == BreakInPlay && o.next.MatchWinner() == None
  {
    var a, b := Alice(), Bob();
    var m := Match(Pair(), TwoSets(), Of(a, 1, b, 0), Some(Of(a, 5, b, 3)), [Of(a, 6, b, 2)], Some(a),
                   GemInProgress(AdvantageCounter(Pair(), Of(a, Fourty, b, Zero))));
    var gem := m.phase.gem;
    assert GemPointWon(m, gem, a) == GameWon(m, a, b) by {
      assert gem.score.Get(a) == Ok(Fourty) && gem.score.Get(b) == Ok(Zero);
    }
    var current := Of(a, 5, b, 3);
    assert GameWon(m, a, b) == CloseSet(m, a, Of(a, 6, b, 3)) by {
      assert CurrentSet(m) == Ok(current) && current.Get(a) == Ok(5);
      assert current.Put(a, 6) == Of(a, 6, b, 3) && Of(a, 6, b, 3).Get(b) == Ok(3);
    }
    assert CloseSet(m, a, Of(a, 6, b, 3)).value.matchScore == Of(a, 2, b, 0) by {
      assert m.matchScore.Get(a) == Ok(1) && m.matchScore.Put(a, 2) == Of(a, 2, b, 0);
    }
  }
}
