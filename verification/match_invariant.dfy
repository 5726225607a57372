/** What every match reachable from the constructor satisfies, proved to be
    kept by each event of the inline state machine. Its consequences: the
    internal failures (null dereferences and the enum running out in the
    source) never happen, a point for one of the players is always taken
    while play is on, and a finished match has the right winner. */
module MatchInvariant {
  import opened Base
  import opened Players
  import opened Scores
  import opened GemPoints
  import opened Settings
  import opened GemCounters
  import opened Tiebreaks
  import opened MatchState
  import opened TennisMatch

  /** A count per player: keyed by exactly the two players, never negative. */
  predicate Tally(s: Score<int>, players: Players) {
    s.entries.Keys == {players.player1, players.player2}
    && forall p | p in s.entries :: s.entries[p] >= 0
  }

  /** Neither side has won under `target` with a margin of two. */
  predicate Undecided(a: int, b: int, target: int) {
    !(a >= target && a - b >= 2) && !(b >= target && b - a >= 2)
  }

  /** The match stands at one set all in a best of three or two all in a
      best of five. */
  predicate Deciding(m: Match)
    requires Tally(m.matchScore, m.players)
  {
    DecidingSet(m, m.matchScore.entries[m.players.player1], m.matchScore.entries[m.players.player2])
  }

  /** The current set ends in a tiebreak or super tiebreak at six all
      rather than being played out with advantage. */
  predicate CappedAtSixAll(m: Match)
    requires Tally(m.matchScore, m.players)
  {
    !(m.settings.finalSetTieResolutionType == ResolveByAdvantage && Deciding(m))
  }

  predicate SixAll(s: Score<int>, players: Players)
    requires Tally(s, players)
  {
    s.entries[players.player1] == 6 && s.entries[players.player2] == 6
  }

  /** A set still open: nobody has six games with a lead of two, and a
      capped set has not gone past six games. */
  predicate OpenSet(s: Score<int>, players: Players, capped: bool)
    requires Tally(s, players)
  {
    var a := s.entries[players.player1];
    var b := s.entries[players.player2];
    Undecided(a, b, 6) && (capped ==> a <= 6 && b <= 6)
  }

  /** A tiebreak still running, over the match's players with the given
      target. */
  predicate RunningTiebreak(c: TiebreakCounter, players: Players, target: int) {
    c.players == players && c.winningScore == target && Tally(c.score, players)
    && Undecided(c.score.entries[players.player1], c.score.entries[players.player2], target)
  }

  /** A game counter holding a position the inline rules can reach: no
      `Gem`, no `Advantage` under golden ball, and an `Advantage` only
      against `Fourty`. */
  predicate ReachableGame(gem: GemCounter, players: Players, scoring: GemScoringType) {
    gem.score.entries.Keys == {players.player1, players.player2}
    && (gem.AdvantageCounter? <==> scoring == WithAdvantage)
    && (gem.AdvantageCounter? ==> gem.players == players)
    && (forall p | p in gem.score.entries :: gem.score.entries[p] != Gem)
    && (scoring == WithGoldenBall ==> forall p | p in gem.score.entries :: gem.score.entries[p] != Advantage)
    && (scoring == WithAdvantage ==>
          forall p | p in gem.score.entries && gem.score.entries[p] == Advantage :: gem.score.entries[players.Opponent(p)] == Fourty)
  }

  /** When a super tiebreak is due: one set all in the two-set format, or
      six all in a deciding set resolved by super tiebreak. */
  predicate SuperTiebreakDue(m: Match)
    requires Tally(m.matchScore, m.players)
    requires m.setScore.Some? && Tally(m.setScore.value, m.players)
  {
    (m.settings.matchFormat == BestOfTwoWithSuperTiebreak
     && m.matchScore.entries[m.players.player1] == 1 && m.matchScore.entries[m.players.player2] == 1)
    || (m.settings.finalSetTieResolutionType == ResolveBySuperTiebreak && Deciding(m) && SixAll(m.setScore.value, m.players))
  }

  /** The sets missing from the history of a finished match: the two-set
      format records its deciding super tiebreak only under the
      super-tiebreak resolution. */
  function UnrecordedSets(s: MatchSettings): nat {
    if s.matchFormat == BestOfTwoWithSuperTiebreak && s.finalSetTieResolutionType != ResolveBySuperTiebreak then 1 else 0
  }

  /** Sets won against the history and the phase: while the match runs each
      won set is in the history and (outside the two-set format) nobody has
      enough sets; once it is over the winner has exactly enough and the
      loser fewer. */
  predicate Ledger(m: Match)
    requires Tally(m.matchScore, m.players)
  {
    var a := m.matchScore.entries[m.players.player1];
    var b := m.matchScore.entries[m.players.player2];
    var target := m.settings.matchFormat.SetsToWin();
    if m.phase.MatchFinished? then
      m.players.Has(m.phase.winner)
      && m.matchScore.entries[m.phase.winner] == target
      && m.matchScore.entries[m.players.Opponent(m.phase.winner)] < target
      && |m.setHistory| + UnrecordedSets(m.settings) == a + b
    else
      (m.settings.matchFormat != BestOfTwoWithSuperTiebreak ==> a < target && b < target)
      && |m.setHistory| == a + b
  }

  /** Phase-specific facts. */
  predicate PhaseFacts(m: Match)
    requires Tally(m.matchScore, m.players)
    requires m.setScore.Some? ==> Tally(m.setScore.value, m.players)
  {
    match m.phase
    case BeforeFirstGem => m.setScore.None? || m.setScore == Some(Fresh(m.players, 0))
    case GemInProgress(gem) =>
      m.server.Some? && m.setScore.Some?
      && ReachableGame(gem, m.players, m.settings.gemScoringType)
      && !(CappedAtSixAll(m) && SixAll(m.setScore.value, m.players))
    case BreakInPlay => m.server.Some?
    case TiebreakInPlay(_, tiebreak) =>
      m.server.Some? && m.setScore.Some? && SixAll(m.setScore.value, m.players) && CappedAtSixAll(m)
      && RunningTiebreak(tiebreak, m.players, 7)
    case SupertiebreakInPlay(supertiebreak) =>
      m.server.Some? && m.setScore.Some? && SuperTiebreakDue(m)
      && RunningTiebreak(supertiebreak, m.players, 10)
    case MatchFinished(_) => true
  }

  /** The match invariant. */
  predicate Inv(m: Match) {
    m.players.Distinct()
    && Tally(m.matchScore, m.players)
    && (m.setScore.Some? ==> Tally(m.setScore.value, m.players) && OpenSet(m.setScore.value, m.players, CappedAtSixAll(m)))
    && Ledger(m)
    && PhaseFacts(m)
  }

  lemma FreshTally(players: Players)
    ensures Tally(Fresh(players, 0), players)
    ensures Fresh(players, 0).entries[players.player1] == 0 && Fresh(players, 0).entries[players.player2] == 0
  {
    OfIsWellFormed(players.player1, 0, players.player2, 0);
  }

  lemma PutTally(s: Score<int>, players: Players, p: Player, v: int)
    requires Tally(s, players) && p in s.entries && v >= 0
    ensures Tally(s.Put(p, v), players)
  {
  }

  /** A new match satisfies the invariant. */
  lemma NewMatchSatisfiesInv(players: Players, settings: MatchSettings)
    requires players.Distinct()
    ensures Inv(NewMatch(players, settings))
  {
    FreshTally(players);
  }

  /** Closing a set (shared by games and tiebreaks): the winner gains a
      set, the set joins the history, and the match either ends with the
      right winner or breaks. */
  lemma CloseSetKeepsLedger(m: Match, winner: Player, finished: Score<int>)
    requires m.players.Distinct() && m.players.Has(winner) && m.server.Some?
    requires Tally(m.matchScore, m.players) && Ledger(m) && !m.phase.MatchFinished?
    ensures CloseSet(m, winner, finished).Ok?
    ensures var r := CloseSet(m, winner, finished).value;
      r.players == m.players && r.settings == m.settings && r.server.Some? && r.setScore.None?
      && (r.phase.BreakInPlay? || r.phase == MatchFinished(winner))
      && Tally(r.matchScore, r.players) && Ledger(r)
  {
    var sets := m.matchScore.entries[winner];
    PutTally(m.matchScore, m.players, winner, sets + 1);
  }

  /** `GameWon` once the set's games are known. */
  lemma GameWonUnfolds(m: Match, winner: Player, won: bool)
    requires m.players.Distinct() && m.players.Has(winner) && m.setScore.Some?
    requires m.setScore.value.entries.Keys == {m.players.player1, m.players.player2}
    requires var games := m.setScore.value.entries[winner];
      won == (games + 1 >= 6 && games + 1 - m.setScore.value.entries[m.players.Opponent(winner)] >= 2)
    ensures var after := m.setScore.value.Put(winner, m.setScore.value.entries[winner] + 1);
      GameWon(m, winner, m.players.Opponent(winner))
      == if won then CloseSet(m, winner, after) else StartBreak(m.(setScore := Some(after)))
  {
    var current := m.setScore.value;
    var loser := m.players.Opponent(winner);
    assert CurrentSet(m) == Ok(current) && current.Get(winner) == Ok(current.entries[winner]);
    assert current.Put(winner, current.entries[winner] + 1).Get(loser) == Ok(current.entries[loser]);
  }


  /** A won game keeps the invariant. */
  lemma GameWonKeepsInv(m: Match, winner: Player)
    requires Inv(m) && m.phase.GemInProgress? && m.players.Has(winner)
    ensures GameWon(m, winner, m.players.Opponent(winner)).Ok?
    ensures Inv(GameWon(m, winner, m.players.Opponent(winner)).value)
  {
    var loser := m.players.Opponent(winner);
    var current := m.setScore.value;
    var games := current.entries[winner];
    var loserGames := current.entries[loser];
    if games + 1 >= 6 && games + 1 - loserGames >= 2 {
      SetWonByGameKeepsInv(m, winner);
    } else {
      GameInSetKeepsInv(m, winner);
    }
  }

  /** A game that wins the set closes it. */
  lemma SetWonByGameKeepsInv(m: Match, winner: Player)
    requires Inv(m) && m.phase.GemInProgress? && m.players.Has(winner)
    requires var games := m.setScore.value.entries[winner];
      games + 1 >= 6 && games + 1 - m.setScore.value.entries[m.players.Opponent(winner)] >= 2
    ensures GameWon(m, winner, m.players.Opponent(winner)).Ok?
    ensures Inv(GameWon(m, winner, m.players.Opponent(winner)).value)
  {
    var loser := m.players.Opponent(winner);
    var current := m.setScore.value;
    var games := current.entries[winner];
    var afterGame := current.Put(winner, games + 1);
    assert CurrentSet(m) == Ok(current);
    assert current.Get(winner) == Ok(games);
    assert afterGame.Get(loser) == Ok(current.entries[loser]);
    assert GameWon(m, winner, loser) == CloseSet(m, winner, afterGame);
    CloseSetKeepsLedger(m, winner, afterGame);
  }

  /** A game that does not win the set leaves it open and breaks. */
  lemma GameInSetKeepsInv(m: Match, winner: Player)
    requires Inv(m) && m.phase.GemInProgress? && m.players.Has(winner)
    requires var games := m.setScore.value.entries[winner];
      !(games + 1 >= 6 && games + 1 - m.setScore.value.entries[m.players.Opponent(winner)] >= 2)
    ensures GameWon(m, winner, m.players.Opponent(winner)).Ok?
    ensures Inv(GameWon(m, winner, m.players.Opponent(winner)).value)
  {
    var loser := m.players.Opponent(winner);
    var current := m.setScore.value;
    var games := current.entries[winner];
    var loserGames := current.entries[loser];
    var afterGame := current.Put(winner, games + 1);
    var r := m.(setScore := Some(afterGame), server := Some(m.players.Opponent(m.server.value)), phase := BreakInPlay);
    assert GameWon(m, winner, loser) == Ok(r) by {
      GameWonUnfolds(m, winner, false);
    }
    GameKeepsSetOpen(m, winner, games, loserGames);
    PutTally(current, m.players, winner, games + 1);
    BreakWithOpenSetKeepsInv(m, r);
  }

  /** A break after a game that left the set open keeps the invariant. */
  lemma BreakWithOpenSetKeepsInv(m: Match, r: Match)
    requires Inv(m) && !m.phase.MatchFinished?
    requires r.players == m.players && r.settings == m.settings && r.matchScore == m.matchScore
    requires r.setHistory == m.setHistory && r.server.Some? && r.phase == BreakInPlay
    requires r.setScore.Some? && Tally(r.setScore.value, r.players)
    requires var a := r.setScore.value.entries[r.players.player1];
      var b := r.setScore.value.entries[r.players.player2];
      Undecided(a, b, 6) && (CappedAtSixAll(m) ==> a <= 6 && b <= 6)
    ensures Inv(r)
  {
    assert CappedAtSixAll(r) == CappedAtSixAll(m);
    assert Ledger(r);
  }

  /** A game that does not close the set leaves it open. */
  lemma GameKeepsSetOpen(m: Match, winner: Player, games: int, loserGames: int)
    requires Inv(m) && m.phase.GemInProgress? && m.players.Has(winner)
    requires games == m.setScore.value.entries[winner]
    requires loserGames == m.setScore.value.entries[m.players.Opponent(winner)]
    requires !(games + 1 >= 6 && games + 1 - loserGames >= 2)
    ensures Undecided(games + 1, loserGames, 6)
    ensures CappedAtSixAll(m) ==> games + 1 <= 6 && loserGames <= 6
  {
  }

  /** Replacing the game counter by another reachable one keeps the
      invariant. */
  lemma NewGamePositionKeepsInv(m: Match, g: GemCounter)
    requires Inv(m) && m.phase.GemInProgress?
    requires ReachableGame(g, m.players, m.settings.gemScoringType)
    ensures Inv(m.(phase := GemInProgress(g)))
  {
  }

  /** A point in a game keeps the invariant; it fails only for someone who
      is not a player of the match. */
  lemma GamePointKeepsInv(m: Match, gem: GemCounter, winner: Player)
    requires Inv(m) && m.phase == GemInProgress(gem)
    ensures var r := GemPointWon(m, gem, winner);
      (r.Ok? <==> m.players.Has(winner)) && (r.Err? ==> r.error == NoSuchPlayer) && (r.Ok? ==> Inv(r.value))
  {
    var loser := m.players.Opponent(winner);
    var s := gem.score;
    if !m.players.Has(winner) {
      assert s.Get(winner).Err?;
    } else {
      var winnerPoints := s.entries[winner];
      var loserPoints := s.entries[loser];
      var withAdvantage := m.settings.gemScoringType == WithAdvantage;
      if withAdvantage && loserPoints == Advantage {
        AdvantageLostKeepsInv(m, gem, winner);
      } else if (withAdvantage && (winnerPoints == Advantage || (winnerPoints == Fourty && Below(loserPoints, Fourty))))
            || (m.settings.gemScoringType == WithGoldenBall && winnerPoints == Fourty) {
        assert s.Get(winner) == Ok(winnerPoints) && s.Get(loser) == Ok(loserPoints);
        assert GemPointWon(m, gem, winner) == GameWon(m, winner, loser);
        GameWonKeepsInv(m, winner);
      } else {
        PointInGameKeepsInv(m, gem, winner);
      }
    }
  }

  /** Under advantage scoring a point against the player on advantage
      returns the game to deuce. */
  lemma AdvantageLostKeepsInv(m: Match, gem: GemCounter, winner: Player)
    requires Inv(m) && m.phase == GemInProgress(gem) && m.players.Has(winner)
    requires m.settings.gemScoringType == WithAdvantage
    requires gem.score.entries[m.players.Opponent(winner)] == Advantage
    ensures GemPointWon(m, gem, winner).Ok? && Inv(GemPointWon(m, gem, winner).value)
  {
    var loser := m.players.Opponent(winner);
    var s := gem.score;
    assert s.entries[winner] == Fourty;
    assert s.Get(winner) == Ok(Fourty) && s.Get(loser) == Ok(Advantage);
    var g := gem.WithScore(s.Put(loser, Fourty));
    assert GemPointWon(m, gem, winner) == Ok(m.(phase := GemInProgress(g)));
    assert forall p | p in g.score.entries :: g.score.entries[p] == Fourty;
    NewGamePositionKeepsInv(m, g);
  }

  /** A point that neither wins the game nor undoes an advantage moves the
      winner one call up. */
  lemma PointInGameKeepsInv(m: Match, gem: GemCounter, winner: Player)
    requires Inv(m) && m.phase == GemInProgress(gem) && m.players.Has(winner)
    requires var w := gem.score.entries[winner];
      var l := gem.score.entries[m.players.Opponent(winner)];
      var withAdvantage := m.settings.gemScoringType == WithAdvantage;
      !(withAdvantage && l == Advantage)
      && !((withAdvantage && (w == Advantage || (w == Fourty && Below(l, Fourty))))
           || (m.settings.gemScoringType == WithGoldenBall && w == Fourty))
    ensures GemPointWon(m, gem, winner).Ok? && Inv(GemPointWon(m, gem, winner).value)
  {
    var loser := m.players.Opponent(winner);
    var s := gem.score;
    var winnerPoints := s.entries[winner];
    var loserPoints := s.entries[loser];
    var next := Next(winnerPoints);
    PointOrder(winnerPoints, loserPoints, Fourty);
    assert next.Some? && next.value != Gem;
    var g := gem.WithScore(s.Put(winner, next.value));
    assert GemPointWon(m, gem, winner) == Ok(m.(phase := GemInProgress(g))) by {
      assert s.Get(winner) == Ok(winnerPoints) && s.Get(loser) == Ok(loserPoints);
    }
    assert ReachableGame(g, m.players, m.settings.gemScoringType) by {
      assert m.settings.gemScoringType == WithAdvantage && next.value == Advantage ==> loserPoints == Fourty;
      assert forall p | p in g.score.entries :: p == winner || p == loser;
    }
    NewGamePositionKeepsInv(m, g);
  }

  /** A tiebreak point keeps the invariant; the winning point always closes
      the set, since a tiebreak is played at six all. */
  lemma TiebreakPointKeepsInv(m: Match, first: Player, tiebreak: TiebreakCounter, winner: Player)
    requires Inv(m) && m.phase == TiebreakInPlay(first, tiebreak)
    ensures var r := TiebreakPointWon(m, first, tiebreak, winner);
      (r.Ok? <==> m.players.Has(winner)) && (r.Err? ==> r.error == NoSuchPlayer) && (r.Ok? ==> Inv(r.value))
  {
    if !m.players.Has(winner) {
      assert tiebreak.score.Get(winner).Err?;
    } else {
      var points := tiebreak.score.entries[winner] + 1;
      if points >= 7 && points - tiebreak.score.entries[m.players.Opponent(winner)] >= 2 {
        TiebreakWonKeepsInv(m, first, tiebreak, winner);
      } else {
        TiebreakRunsOnKeepsInv(m, first, tiebreak, winner);
      }
    }
  }

  /** Facts about a running tiebreak (target 7 or 10) of a reachable match,
      for a point won by one of the players: the counter takes the point
      exactly as the inline score update does. */
  lemma RunningTiebreakFacts(m: Match, c: TiebreakCounter, target: int, winner: Player)
    requires m.players.Distinct() && m.players.Has(winner) && RunningTiebreak(c, m.players, target)
    ensures var loser := m.players.Opponent(winner);
      var points := c.score.entries[winner] + 1;
      var loserPoints := c.score.entries[loser];
      var incremented := c.(score := c.score.Put(winner, points));
      c.Valid() && c.score.Get(winner) == Ok(points - 1)
      && c.Increment(winner) == Ok(incremented)
      && incremented.score.Get(loser) == Ok(loserPoints)
      && incremented.IsWon(winner) == Ok(points >= target && points - loserPoints >= 2)
      && (incremented.ShouldChangeServingPlayer() <==> JavaRemainder(points + loserPoints, 2) == 1)
  {
    var loser := m.players.Opponent(winner);
    var s := c.score;
    PairAsOf(s, winner, loser);
    RunningTiebreakTakesPoint(c, winner, loser, s.entries[winner], s.entries[loser]);
    CountedTiebreakFacts(c.(score := s.Put(winner, s.entries[winner] + 1)), winner, loser, s.entries[winner] + 1, s.entries[loser]);
  }

  /** An undecided tiebreak takes a point as a plain score update. */
  lemma RunningTiebreakTakesPoint(c: TiebreakCounter, winner: Player, loser: Player, points: int, loserPoints: int)
    requires winner != loser && c.players.Has(winner) && loser == c.players.Opponent(winner)
    requires c.score == Of(winner, points, loser, loserPoints)
    requires !(points >= c.winningScore && points - loserPoints >= 2)
    ensures c.Valid() && c.score.Get(winner) == Ok(points)
    ensures c.Increment(winner) == Ok(c.(score := Of(winner, points + 1, loser, loserPoints)))
    ensures c.score.Put(winner, points + 1) == Of(winner, points + 1, loser, loserPoints)
  {
    OtherOfTwoPlayers(winner, points, loser, loserPoints);
    assert c.IsWon(winner) == Ok(false);
    UpdateOfFirst(winner, points, loser, loserPoints, points + 1);
  }

  /** The inline tiebreak at six all: the winning point takes the set
      seven-six. */
  lemma TiebreakWinInline(m: Match, first: Player, tiebreak: TiebreakCounter, winner: Player, current: Score<int>)
    requires m.players.Distinct() && m.players.Has(winner) && RunningTiebreak(tiebreak, m.players, 7)
    requires var points := tiebreak.score.entries[winner] + 1;
      points >= 7 && points - tiebreak.score.entries[m.players.Opponent(winner)] >= 2
    requires m.setScore == Some(current) && Tally(current, m.players) && SixAll(current, m.players)
    requires CloseSet(m, winner, current.Put(winner, 7)).Ok?
    ensures TiebreakPointWon(m, first, tiebreak, winner)
      == Ok(CloseSet(m, winner, current.Put(winner, 7)).value.(server := Some(m.players.Opponent(first))))
  {
    var loser := m.players.Opponent(winner);
    var points := tiebreak.score.entries[winner];
    assert tiebreak.score.Get(winner) == Ok(points)
        && tiebreak.score.Put(winner, points + 1).Get(loser) == Ok(tiebreak.score.entries[loser]) by {
      RunningTiebreakFacts(m, tiebreak, 7, winner);
    }
    assert current.Get(winner) == Ok(6) && current.Put(winner, 7).Get(loser) == Ok(6);
    TiebreakWinUnfolds(m, first, tiebreak, winner, points, tiebreak.score.entries[loser], current);
  }

  /** `TiebreakInPlay.registerPoint` on a winning point at six games all,
      once the scores it reads are known. */
  lemma TiebreakWinUnfolds(m: Match, first: Player, tiebreak: TiebreakCounter, winner: Player,
                           points: int, loserPoints: int, current: Score<int>)
    requires tiebreak.score.Get(winner) == Ok(points)
    requires tiebreak.score.Put(winner, points + 1).Get(m.players.Opponent(winner)) == Ok(loserPoints)
    requires points + 1 >= 7 && points + 1 - loserPoints >= 2
    requires m.setScore == Some(current) && current.Get(winner) == Ok(6)
    requires current.Put(winner, 7).Get(m.players.Opponent(winner)) == Ok(6)
    requires CloseSet(m, winner, current.Put(winner, 7)).Ok?
    ensures TiebreakPointWon(m, first, tiebreak, winner)
      == Ok(CloseSet(m, winner, current.Put(winner, 7)).value.(server := Some(m.players.Opponent(first))))
  {
    assert CurrentSet(m) == Ok(current);
  }

  /** The inline super tiebreak's winning point ends the match at once,
      recording a seven-six set only under the super-tiebreak resolution. */
  lemma SupertiebreakWinInline(m: Match, supertiebreak: TiebreakCounter, winner: Player)
    requires m.players.Distinct() && m.players.Has(winner) && RunningTiebreak(supertiebreak, m.players, 10)
    requires var points := supertiebreak.score.entries[winner] + 1;
      points >= 10 && points - supertiebreak.score.entries[m.players.Opponent(winner)] >= 2
    requires Tally(m.matchScore, m.players) && m.setScore.Some?
    ensures var matchScore := m.matchScore.Put(winner, m.matchScore.entries[winner] + 1);
      var history := if m.settings.finalSetTieResolutionType == ResolveBySuperTiebreak
        then m.setHistory + [m.setScore.value.Put(winner, 7)] else m.setHistory;
      SupertiebreakPointWon(m, supertiebreak, winner)
      == Ok(FinishMatch(m.(matchScore := matchScore, setHistory := history, setScore := None), winner))
  {
    RunningTiebreakFacts(m, supertiebreak, 10, winner);
    KeyedByTwoIsWellFormed(m.matchScore, m.players.player1, m.players.player2);
    assert m.matchScore.Get(winner) == Ok(m.matchScore.entries[winner]);
    assert CurrentSet(m) == Ok(m.setScore.value);
  }

  /** The winning point of a tiebreak closes the set and hands the serve to
      the player who received first in the tiebreak. */
  lemma TiebreakWonKeepsInv(m: Match, first: Player, tiebreak: TiebreakCounter, winner: Player)
    requires Inv(m) && m.phase == TiebreakInPlay(first, tiebreak) && m.players.Has(winner)
    requires var points := tiebreak.score.entries[winner] + 1;
      points >= 7 && points - tiebreak.score.entries[m.players.Opponent(winner)] >= 2
    ensures TiebreakPointWon(m, first, tiebreak, winner).Ok?
    ensures Inv(TiebreakPointWon(m, first, tiebreak, winner).value)
  {
    var current := m.setScore.value;
    var afterGame := current.Put(winner, 7);
    assert Tally(current, m.players) && SixAll(current, m.players) && RunningTiebreak(tiebreak, m.players, 7);
    CloseSetKeepsLedger(m, winner, afterGame);
    TiebreakWinInline(m, first, tiebreak, winner, current);
    var r := CloseSet(m, winner, afterGame).value.(server := Some(m.players.Opponent(first)));
    assert Ledger(r) && Tally(r.matchScore, r.players);
    ClosedSetKeepsInv(r);
  }

  /** A match between sets, on a break or finished, satisfies the invariant
      once its set tally and ledger are right. */
  lemma ClosedSetKeepsInv(r: Match)
    requires r.players.Distinct() && Tally(r.matchScore, r.players) && Ledger(r)
    requires r.setScore.None? && r.server.Some? && (r.phase.BreakInPlay? || r.phase.MatchFinished?)
    ensures Inv(r)
  {
  }

  /** A tiebreak point that does not decide it keeps the tiebreak running. */
  lemma TiebreakRunsOnKeepsInv(m: Match, first: Player, tiebreak: TiebreakCounter, winner: Player)
    requires Inv(m) && m.phase == TiebreakInPlay(first, tiebreak) && m.players.Has(winner)
    requires var points := tiebreak.score.entries[winner] + 1;
      !(points >= 7 && points - tiebreak.score.entries[m.players.Opponent(winner)] >= 2)
    ensures TiebreakPointWon(m, first, tiebreak, winner).Ok?
    ensures Inv(TiebreakPointWon(m, first, tiebreak, winner).value)
  {
    var loser := m.players.Opponent(winner);
    var points := tiebreak.score.entries[winner] + 1;
    var afterPoint := tiebreak.(score := tiebreak.score.Put(winner, points));
    PutTally(tiebreak.score, m.players, winner, points);
    assert tiebreak.score.Get(winner) == Ok(points - 1);
    assert afterPoint.score.Get(loser) == Ok(tiebreak.score.entries[loser]);
    assert RunningTiebreak(afterPoint, m.players, 7);
    var r := m.(phase := TiebreakInPlay(first, afterPoint));
    assert Inv(r);
    assert TiebreakPointWon(m, first, tiebreak, winner) == ChangeServingPlayer(r)
        || TiebreakPointWon(m, first, tiebreak, winner) == Ok(r);
  }

  /** A super-tiebreak point keeps the invariant; the winning point ends the
      match. */
  lemma SupertiebreakPointKeepsInv(m: Match, supertiebreak: TiebreakCounter, winner: Player)
    requires Inv(m) && m.phase == SupertiebreakInPlay(supertiebreak)
    ensures var r := SupertiebreakPointWon(m, supertiebreak, winner);
      (r.Ok? <==> m.players.Has(winner)) && (r.Err? ==> r.error == NoSuchPlayer) && (r.Ok? ==> Inv(r.value))
  {
    if !m.players.Has(winner) {
      assert supertiebreak.score.Get(winner).Err?;
    } else {
      var points := supertiebreak.score.entries[winner] + 1;
      if points >= 10 && points - supertiebreak.score.entries[m.players.Opponent(winner)] >= 2 {
        SupertiebreakWonKeepsInv(m, supertiebreak, winner);
      } else {
        SupertiebreakRunsOnKeepsInv(m, supertiebreak, winner);
      }
    }
  }

  /** The winning point of a super tiebreak ends the match with the right
      winner. */
  lemma SupertiebreakWonKeepsInv(m: Match, supertiebreak: TiebreakCounter, winner: Player)
    requires Inv(m) && m.phase == SupertiebreakInPlay(supertiebreak) && m.players.Has(winner)
    requires var points := supertiebreak.score.entries[winner] + 1;
      points >= 10 && points - supertiebreak.score.entries[m.players.Opponent(winner)] >= 2
    ensures SupertiebreakPointWon(m, supertiebreak, winner).Ok?
    ensures Inv(SupertiebreakPointWon(m, supertiebreak, winner).value)
  {
    var sets := m.matchScore.entries[winner];
    PutTally(m.matchScore, m.players, winner, sets + 1);
    var matchScore := m.matchScore.Put(winner, sets + 1);
    var history := if m.settings.finalSetTieResolutionType == ResolveBySuperTiebreak
      then m.setHistory + [m.setScore.value.Put(winner, 7)] else m.setHistory;
    assert RunningTiebreak(supertiebreak, m.players, 10);
    SupertiebreakWinInline(m, supertiebreak, winner);
    var r := FinishMatch(m.(matchScore := matchScore, setHistory := history, setScore := None), winner);
    assert Ledger(r);
  }

  /** A super-tiebreak point that does not decide it keeps it running. */
  lemma SupertiebreakRunsOnKeepsInv(m: Match, supertiebreak: TiebreakCounter, winner: Player)
    requires Inv(m) && m.phase == SupertiebreakInPlay(supertiebreak) && m.players.Has(winner)
    requires var points := supertiebreak.score.entries[winner] + 1;
      !(points >= 10 && points - supertiebreak.score.entries[m.players.Opponent(winner)] >= 2)
    ensures SupertiebreakPointWon(m, supertiebreak, winner).Ok?
    ensures Inv(SupertiebreakPointWon(m, supertiebreak, winner).value)
  {
    var loser := m.players.Opponent(winner);
    var points := supertiebreak.score.entries[winner] + 1;
    var afterPoint := supertiebreak.(score := supertiebreak.score.Put(winner, points));
    PutTally(supertiebreak.score, m.players, winner, points);
    assert supertiebreak.score.Get(winner) == Ok(points - 1);
    assert afterPoint.score.Get(loser) == Ok(supertiebreak.score.entries[loser]);
    assert RunningTiebreak(afterPoint, m.players, 10);
    var r := m.(phase := SupertiebreakInPlay(afterPoint));
    assert Inv(r);
    assert SupertiebreakPointWon(m, supertiebreak, winner) == ChangeServingPlayer(r)
        || SupertiebreakPointWon(m, supertiebreak, winner) == Ok(r);
  }

  /** Resuming after a break keeps the invariant and always succeeds. */
  lemma ResumeKeepsInv(m: Match)
    requires Inv(m) && m.phase.BreakInPlay? && m.setScore.Some?
    ensures ResumeAfterBreak(m).Ok? && Inv(ResumeAfterBreak(m).value)
  {
    var current := m.setScore.value;
    var sets1 := m.matchScore.entries[m.players.player1];
    var sets2 := m.matchScore.entries[m.players.player2];
    var games1 := current.entries[m.players.player1];
    var games2 := current.entries[m.players.player2];
    var resolution := m.settings.finalSetTieResolutionType;
    var super := (m.settings.matchFormat == BestOfTwoWithSuperTiebreak && sets1 == 1 && sets2 == 1)
      || (resolution == ResolveBySuperTiebreak && games1 == 6 && games2 == 6 && DecidingSet(m, sets1, sets2));
    var tiebreak := games1 == 6 && games2 == 6 && !(resolution == ResolveByAdvantage && DecidingSet(m, sets1, sets2));
    ResumeUnfolds(m, sets1, sets2, current, games1, games2);
    if super {
      SuperTiebreakKeepsInv(m);
    } else if tiebreak {
      TiebreakStartKeepsInv(m);
    } else {
      GameStartKeepsInv(m);
    }
  }

  /** `BreakInPlay.startPlay` once the sets and games it reads are known. */
  lemma ResumeUnfolds(m: Match, sets1: int, sets2: int, current: Score<int>, games1: int, games2: int)
    requires m.matchScore.Get(m.players.player1) == Ok(sets1) && m.matchScore.Get(m.players.player2) == Ok(sets2)
    requires m.setScore == Some(current)
    requires current.Get(m.players.player1) == Ok(games1) && current.Get(m.players.player2) == Ok(games2)
    ensures var resolution := m.settings.finalSetTieResolutionType;
      ResumeAfterBreak(m)
      == if (m.settings.matchFormat == BestOfTwoWithSuperTiebreak && sets1 == 1 && sets2 == 1)
            || (resolution == ResolveBySuperTiebreak && games1 == 6 && games2 == 6 && DecidingSet(m, sets1, sets2))
         then Ok(StartSuperTiebreak(m))
         else if games1 == 6 && games2 == 6 && !(resolution == ResolveByAdvantage && DecidingSet(m, sets1, sets2))
         then StartTiebreak(m)
         else Ok(StartGem(m))
  {
    assert CurrentSet(m) == Ok(current);
  }

  /** A super tiebreak started from a break keeps the invariant. */
  lemma SuperTiebreakKeepsInv(m: Match)
    requires Inv(m) && m.phase.BreakInPlay? && m.setScore.Some?
    requires SuperTiebreakDue(m)
    ensures Inv(StartSuperTiebreak(m))
  {
    FreshTally(m.players);
  }

  /** A tiebreak started at six all from a break keeps the invariant. */
  lemma TiebreakStartKeepsInv(m: Match)
    requires Inv(m) && m.phase.BreakInPlay? && m.setScore.Some?
    requires SixAll(m.setScore.value, m.players) && CappedAtSixAll(m)
    ensures StartTiebreak(m).Ok? && Inv(StartTiebreak(m).value)
  {
    FreshTally(m.players);
  }

  /** A new game started from a break keeps the invariant, unless the set
      stands at six all in a set ended by a tiebreak. */
  lemma GameStartKeepsInv(m: Match)
    requires Inv(m) && m.phase.BreakInPlay? && m.setScore.Some?
    requires !(CappedAtSixAll(m) && SixAll(m.setScore.value, m.players))
    ensures Inv(StartGem(m))
  {
    var g := NewGemCounter(m.players, m.settings.gemScoringType);
    assert ReachableGame(g, m.players, m.settings.gemScoringType);
  }

  /** Choosing the server keeps the invariant. */
  lemma ChooseServerKeepsInv(m: Match, p: Player)
    requires Inv(m)
    ensures Inv(RegisterFirstServingPlayer(m, p).next)
  {
  }

  /** Starting play keeps the invariant, and a refusal is never internal. */
  lemma StartPlayKeepsInv(m: Match)
    requires Inv(m)
    ensures Inv(StartPlay(m).next)
    ensures StartPlay(m).Rejected? ==> !IsInternal(StartPlay(m).error)
  {
    var started := EnsureSetStarted(m);
    EnsureSetStartedKeepsInv(m);
    match m.phase
    case BeforeFirstGem =>
      if m.server.Some? {
        assert StartPlay(m) == Accepted(StartGem(started));
        FreshTally(m.players);
        OpeningGameKeepsInv(started);
      }
    case BreakInPlay =>
      assert StartPlay(m) == Settle(started, ResumeAfterBreak(started));
      ResumeKeepsInv(started);
    case _ =>
  }

  /** Installing a fresh set where none is open keeps the invariant. */
  lemma EnsureSetStartedKeepsInv(m: Match)
    requires Inv(m)
    ensures Inv(EnsureSetStarted(m))
  {
    FreshTally(m.players);
  }

  /** The first game, started on the fresh set, keeps the invariant. */
  lemma OpeningGameKeepsInv(m: Match)
    requires Inv(m) && m.phase.BeforeFirstGem? && m.server.Some? && m.setScore == Some(Fresh(m.players, 0))
    ensures Inv(StartGem(m))
  {
    FreshTally(m.players);
    var g := NewGemCounter(m.players, m.settings.gemScoringType);
    assert ReachableGame(g, m.players, m.settings.gemScoringType);
  }

  /** Registering a point keeps the invariant; during play it is refused
      only for someone who is not a player of the match. */
  lemma RegisterPointKeepsInv(m: Match, winner: Player)
    requires Inv(m)
    ensures Inv(RegisterPoint(m, winner).next)
    ensures RegisterPoint(m, winner).Rejected? ==> !IsInternal(RegisterPoint(m, winner).error)
    ensures m.players.Has(winner) && (m.phase.GemInProgress? || m.phase.TiebreakInPlay? || m.phase.SupertiebreakInPlay?)
            ==> RegisterPoint(m, winner).Accepted?
  {
    match m.phase
    case GemInProgress(gem) =>
      GamePointKeepsInv(m, gem, winner);
      SettleKeepsInv(m, GemPointWon(m, gem, winner), winner);
    case TiebreakInPlay(first, tiebreak) =>
      TiebreakPointKeepsInv(m, first, tiebreak, winner);
      SettleKeepsInv(m, TiebreakPointWon(m, first, tiebreak, winner), winner);
    case SupertiebreakInPlay(supertiebreak) =>
      SupertiebreakPointKeepsInv(m, supertiebreak, winner);
      SettleKeepsInv(m, SupertiebreakPointWon(m, supertiebreak, winner), winner);
    case _ =>
  }

  /** A point's result, settled: the state it leads to keeps the
      invariant, and the only refusal is for someone not playing. */
  lemma SettleKeepsInv(m: Match, r: Result<Match>, winner: Player)
    requires Inv(m) && (r.Ok? <==> m.players.Has(winner)) && (r.Err? ==> r.error == NoSuchPlayer) && (r.Ok? ==> Inv(r.value))
    ensures Inv(Settle(m, r).next) && (Settle(m, r).Rejected? ==> !IsInternal(Settle(m, r).error))
    ensures m.players.Has(winner) ==> Settle(m, r).Accepted?
  {
  }

  /** Every event keeps the invariant, and none is ever refused for an
      internal reason. */
  lemma StepKeepsInv(m: Match, e: Event)
    requires Inv(m)
    ensures Inv(Step(m, e).next)
    ensures Step(m, e).Rejected? ==> !IsInternal(Step(m, e).error)
  {
    match e
    case ChooseServer(p) => ChooseServerKeepsInv(m, p);
    case Start => StartPlayKeepsInv(m);
    case Point(w) => RegisterPointKeepsInv(m, w);
  }

  lemma {:induction false} RunKeepsInv(m: Match, events: seq<Event>)
    requires Inv(m)
    ensures Inv(Run(m, events))
    decreases |events|
  {
    if events != [] {
      StepKeepsInv(m, events[0]);
      RunKeepsInv(Step(m, events[0]).next, events[1..]);
    }
  }

  /** Whatever events a match has seen, a winner it reports has won exactly
      the sets the format needs and the opponent fewer, and a match still
      running has recorded every set won. */
  lemma ReachableMatchesAreConsistent(players: Players, settings: MatchSettings, events: seq<Event>)
    requires players.Distinct()
    ensures var m := Run(NewMatch(players, settings), events);
      Inv(m)
      && (m.MatchWinner().Some? ==>
            var w := m.MatchWinner().value;
            players.Has(w)
            && m.matchScore.Get(w) == Ok(settings.matchFormat.SetsToWin())
            && m.matchScore.Get(players.Opponent(w)).Ok?
            && m.matchScore.Get(players.Opponent(w)).value < settings.matchFormat.SetsToWin())
      && (m.MatchWinner().None? ==>
            m.matchScore.Get(players.player1).Ok? && m.matchScore.Get(players.player2).Ok?
            && |m.setHistory| == m.matchScore.Get(players.player1).value + m.matchScore.Get(players.player2).value)
  {
    NewMatchSatisfiesInv(players, settings);
    RunKeepsInv(NewMatch(players, settings), events);
  }

  /** A finished match stays finished with the same winner, score and
      history, whatever comes after. */
  lemma {:induction false} FinishedIsTerminal(m: Match, events: seq<Event>)
    requires m.phase.MatchFinished?
    ensures Run(m, events).phase == m.phase && Run(m, events).MatchWinner() == m.MatchWinner()
    ensures Run(m, events).matchScore == m.matchScore && Run(m, events).setHistory == m.setHistory
    decreases |events|
  {
    if events != [] {
      var next := Step(m, events[0]).next;
      assert next.phase == m.phase && next.matchScore == m.matchScore && next.setHistory == m.setHistory;
      FinishedIsTerminal(next, events[1..]);
    }
  }
}
