/** The inline state machine of TennisMatch.java: the three events and, per
    phase, what a point or a start of play does to the match. This revision
    is the authority for end-to-end behaviour. */
module TennisMatch {
  import opened Base
  import opened Players
  import opened Scores
  import opened GemPoints
  import opened Settings
  import opened GemCounters
  import opened Tiebreaks
  import opened MatchState

  /** The final-set test written out at TennisMatch.java:202-203 and 210-211. */
  predicate DecidingSet(m: Match, sets1: int, sets2: int) {
    (sets1 == 1 && sets2 == 1 && m.settings.matchFormat == BestOfThree)
    || (sets1 == 2 && sets2 == 2 && m.settings.matchFormat == BestOfFive)
  }

  /** `registerFirstServingPlayer`: only before the first game and only
      once; any player value is accepted, and every refusal leaves the match
      as it was. */
  function RegisterFirstServingPlayer(m: Match, p: Player): (o: Outcome)
    ensures o.Accepted? <==> m.phase.BeforeFirstGem? && m.server.None?
    ensures o.Accepted? ==> o.next == m.(server := Some(p))
    ensures o.Rejected? ==> o.next == m
    ensures o.Rejected? && m.phase.GemInProgress? ==> o.error == GemIsInProgress
    ensures o.Rejected? && m.phase.MatchFinished? ==> o.error == MatchIsFinished
    ensures o.Rejected? && !m.phase.GemInProgress? && !m.phase.MatchFinished? ==> o.error == ServerAlreadyChosen
  {
    match m.phase
    case BeforeFirstGem =>
      if m.server.Some? then Rejected(ServerAlreadyChosen, m) else Accepted(m.(server := Some(p)))
    case GemInProgress(_) => Rejected(GemIsInProgress, m)
    case BreakInPlay => Rejected(ServerAlreadyChosen, m)
    case TiebreakInPlay(_, _) => Rejected(ServerAlreadyChosen, m)
    case SupertiebreakInPlay(_) => Rejected(ServerAlreadyChosen, m)
    case MatchFinished(_) => Rejected(MatchIsFinished, m)
  }

  /** `startPlay`: a set at zero all is installed first whenever none is in
      progress, so even a refused start leaves one behind; play can start
      only before the first game (once a server is chosen) and from a
      break. */
  function StartPlay(m: Match): (o: Outcome)
    ensures o.next.setScore.Some?
    ensures o.Rejected? ==> o.next == EnsureSetStarted(m)
    ensures o.Accepted? ==> m.phase.BeforeFirstGem? || m.phase.BreakInPlay?
    ensures m.phase.BeforeFirstGem? ==> (o.Accepted? <==> m.server.Some?)
    ensures m.phase.BeforeFirstGem? && m.server.Some? ==> o.next.phase == GemInProgress(NewGemCounter(m.players, m.settings.gemScoringType))
    ensures m.phase.BeforeFirstGem? && m.server.None? ==> o.error == ServerNotChosen
    ensures m.phase.GemInProgress? ==> o.Rejected? && o.error == GemIsInProgress
    ensures m.phase.TiebreakInPlay? ==> o.Rejected? && o.error == TiebreakIsInProgress
    ensures m.phase.SupertiebreakInPlay? ==> o.Rejected? && o.error == SupertiebreakIsInProgress
    ensures m.phase.MatchFinished? ==> o.Rejected? && o.error == MatchIsFinished
    ensures o.Accepted? ==> o.next.phase.GemInProgress? || o.next.phase.TiebreakInPlay? || o.next.phase.SupertiebreakInPlay?
    ensures o.next.players == m.players && o.next.settings == m.settings && o.next.server == m.server
    ensures o.next.matchScore == m.matchScore && o.next.setHistory == m.setHistory
    ensures m.setScore.Some? ==> o.next.setScore == m.setScore
  {
    var started := EnsureSetStarted(m);
    match started.phase
    case BeforeFirstGem =>
      if started.server.None? then Rejected(ServerNotChosen, started) else Accepted(StartGem(started))
    case GemInProgress(_) => Rejected(GemIsInProgress, started)
    case BreakInPlay => Settle(started, ResumeAfterBreak(started))
    case TiebreakInPlay(_, _) => Rejected(TiebreakIsInProgress, started)
    case SupertiebreakInPlay(_) => Rejected(SupertiebreakIsInProgress, started)
    case MatchFinished(_) => Rejected(MatchIsFinished, started)
  }

  /** `BreakInPlay.startPlay` (TennisMatch.java:197-218): a super tiebreak
      first, then a tiebreak at six all unless the deciding set is played
      out with advantage, else a new game. */
  function ResumeAfterBreak(m: Match): (r: Result<Match>)
    ensures r.Ok? ==> r.value == m.(phase := r.value.phase)
    ensures r.Ok? ==> r.value.phase.GemInProgress? || r.value.phase.TiebreakInPlay? || r.value.phase.SupertiebreakInPlay?
    ensures r.Ok? && r.value.phase.TiebreakInPlay? ==>
      r.value.phase.tiebreak.winningScore == 7 && m.setScore.Some?
      && m.setScore.value.Get(m.players.player1) == Ok(6) && m.setScore.value.Get(m.players.player2) == Ok(6)
    ensures r.Ok? && r.value.phase.SupertiebreakInPlay? ==>
      r.value.phase.supertiebreak.winningScore == 10
      && (m.settings.matchFormat == BestOfTwoWithSuperTiebreak || m.settings.finalSetTieResolutionType == ResolveBySuperTiebreak)
  {
    var sets1 :- m.matchScore.Get(m.players.player1);
    var sets2 :- m.matchScore.Get(m.players.player2);
    var current :- CurrentSet(m);
    var games1 :- current.Get(m.players.player1);
    var games2 :- current.Get(m.players.player2);
    var resolution := m.settings.finalSetTieResolutionType;
    if (m.settings.matchFormat == BestOfTwoWithSuperTiebreak && sets1 == 1 && sets2 == 1)
       || (resolution == ResolveBySuperTiebreak && games1 == 6 && games2 == 6 && DecidingSet(m, sets1, sets2))
    then Ok(StartSuperTiebreak(m))
    else if games1 == 6 && games2 == 6 && !(resolution == ResolveByAdvantage && DecidingSet(m, sets1, sets2))
    then StartTiebreak(m)
    else Ok(StartGem(m))
  }

  /** `registerPoint`: only a game, a tiebreak or a super tiebreak takes
      points; every refusal leaves the match as it was, the players and
      settings never change, and finished sets are only ever appended, at
      most one per point. */
  function RegisterPoint(m: Match, winner: Player): (o: Outcome)
    ensures o.Rejected? ==> o.next == m
    ensures m.phase.BeforeFirstGem? || m.phase.BreakInPlay? ==> o == Rejected(NoPlayInProgress, m)
    ensures m.phase.MatchFinished? ==> o == Rejected(MatchIsFinished, m)
    ensures o.next.players == m.players && o.next.settings == m.settings
    ensures m.setHistory <= o.next.setHistory && |o.next.setHistory| <= |m.setHistory| + 1
  {
    match m.phase
    case BeforeFirstGem => Rejected(NoPlayInProgress, m)
    case GemInProgress(gem) => Settle(m, GemPointWon(m, gem, winner))
    case BreakInPlay => Rejected(NoPlayInProgress, m)
    case TiebreakInPlay(first, tiebreak) => Settle(m, TiebreakPointWon(m, first, tiebreak, winner))
    case SupertiebreakInPlay(supertiebreak) => Settle(m, SupertiebreakPointWon(m, supertiebreak, winner))
    case MatchFinished(_) => Rejected(MatchIsFinished, m)
  }

  /** `GemInProgress.registerPoint` (TennisMatch.java:135-158). */
  function GemPointWon(m: Match, gem: GemCounter, winner: Player): (r: Result<Match>)
    ensures r.Ok? ==> r.value.players == m.players && r.value.settings == m.settings
    ensures r.Ok? ==> m.setHistory <= r.value.setHistory && |r.value.setHistory| <= |m.setHistory| + 1
    ensures r.Err? ==> r.error == NoSuchPlayer || IsInternal(r.error)
    ensures r.Ok? && r.value.phase.GemInProgress? ==> r.value == m.(phase := r.value.phase)
    ensures r.Ok? ==> r.value.phase.GemInProgress? || r.value.phase.BreakInPlay? || r.value.phase == MatchFinished(winner)
  {
    var loser := m.players.Opponent(winner);
    var winnerPoints :- gem.score.Get(winner);
    var loserPoints :- gem.score.Get(loser);
    var withAdvantage := m.settings.gemScoringType == WithAdvantage;
    if withAdvantage && loserPoints == Advantage then
      Ok(m.(phase := GemInProgress(gem.WithScore(gem.score.Put(loser, Fourty)))))
    else if (withAdvantage && (winnerPoints == Advantage || (winnerPoints == Fourty && Below(loserPoints, Fourty))))
            || (m.settings.gemScoringType == WithGoldenBall && winnerPoints == Fourty) then
      GameWon(m, winner, loser)
    else if Next(winnerPoints).None? then Err(NoNextGemPoint)
    else Ok(m.(phase := GemInProgress(gem.WithScore(gem.score.Put(winner, Next(winnerPoints).value)))))
  }

  /** TennisMatch.java:145-155: the game goes to the set; a set won by six
      games with a lead of two is closed, otherwise play breaks. */
  function GameWon(m: Match, winner: Player, loser: Player): (r: Result<Match>)
    ensures r.Ok? ==> r.value.players == m.players && r.value.settings == m.settings
    ensures r.Ok? ==> m.setHistory <= r.value.setHistory && |r.value.setHistory| <= |m.setHistory| + 1
    ensures r.Ok? ==> r.value.phase.BreakInPlay? || r.value.phase == MatchFinished(winner)
    ensures r.Ok? ==> (r.value.setScore.None? <==> |r.value.setHistory| == |m.setHistory| + 1)
    ensures r.Ok? && r.value.setScore.Some? ==> r.value.matchScore == m.matchScore
  {
    var current :- CurrentSet(m);
    var games :- current.Get(winner);
    var afterGame := current.Put(winner, games + 1);
    var loserGames :- afterGame.Get(loser);
    if games + 1 >= 6 && games + 1 - loserGames >= 2 then CloseSet(m, winner, afterGame)
    else StartBreak(m.(setScore := Some(afterGame)))
  }

  /** `TiebreakInPlay.registerPoint` (TennisMatch.java:246-267). */
  function TiebreakPointWon(m: Match, first: Player, tiebreak: TiebreakCounter, winner: Player): (r: Result<Match>)
    ensures r.Ok? ==> r.value.players == m.players && r.value.settings == m.settings
    ensures r.Ok? ==> m.setHistory <= r.value.setHistory && |r.value.setHistory| <= |m.setHistory| + 1
    ensures r.Err? ==> r.error == NoSuchPlayer || IsInternal(r.error)
    ensures r.Ok? ==> r.value.phase.TiebreakInPlay? || r.value.phase.BreakInPlay? || r.value.phase == MatchFinished(winner)
    ensures r.Ok? && r.value.phase.TiebreakInPlay? ==> r.value.phase.firstServer == first
    ensures r.Ok? && !r.value.phase.TiebreakInPlay? ==> r.value.server == Some(m.players.Opponent(first))
  {
    var loser := m.players.Opponent(winner);
    var points :- tiebreak.score.Get(winner);
    var afterPoint := tiebreak.(score := tiebreak.score.Put(winner, points + 1));
    var loserPoints :- afterPoint.score.Get(loser);
    if points + 1 >= 7 && points + 1 - loserPoints >= 2 then
      var current :- CurrentSet(m);
      var games :- current.Get(winner);
      var afterGame := current.Put(winner, games + 1);
      var loserGames :- afterGame.Get(loser);
      var decided :-
        if (games + 1 == 6 && loserGames < 5) || games + 1 == 7 then CloseSet(m, winner, afterGame)
        else Ok(m.(setScore := Some(afterGame), phase := TiebreakInPlay(first, afterPoint)));
      Ok(decided.(server := Some(m.players.Opponent(first))))
    else if JavaRemainder(points + 1 + loserPoints, 2) == 1 then
      ChangeServingPlayer(m.(phase := TiebreakInPlay(first, afterPoint)))
    else Ok(m.(phase := TiebreakInPlay(first, afterPoint)))
  }

  /** `SupertiebreakInPlay.registerPoint` (TennisMatch.java:284-300): the
      winner of the super tiebreak always wins the match. */
  function SupertiebreakPointWon(m: Match, supertiebreak: TiebreakCounter, winner: Player): (r: Result<Match>)
    ensures r.Ok? ==> r.value.players == m.players && r.value.settings == m.settings
    ensures r.Ok? ==> m.setHistory <= r.value.setHistory && |r.value.setHistory| <= |m.setHistory| + 1
    ensures r.Err? ==> r.error == NoSuchPlayer || IsInternal(r.error)
    ensures r.Ok? ==> r.value.phase.SupertiebreakInPlay? || r.value.phase == MatchFinished(winner)
    ensures r.Ok? && r.value.phase.SupertiebreakInPlay? ==>
      r.value.matchScore == m.matchScore && r.value.setScore == m.setScore && r.value.setHistory == m.setHistory
    ensures r.Ok? && r.value.phase.MatchFinished? ==>
      winner in m.matchScore.entries && r.value.matchScore.Get(winner) == Ok(m.matchScore.entries[winner] + 1)
  {
    var loser := m.players.Opponent(winner);
    var points :- supertiebreak.score.Get(winner);
    var afterPoint := supertiebreak.(score := supertiebreak.score.Put(winner, points + 1));
    var loserPoints :- afterPoint.score.Get(loser);
    if points + 1 >= 10 && points + 1 - loserPoints >= 2 then
      var sets :- m.matchScore.Get(winner);
      var matchScore := m.matchScore.Put(winner, sets + 1);
      if m.settings.finalSetTieResolutionType == ResolveBySuperTiebreak then
        var current :- CurrentSet(m);
        Ok(FinishMatch(m.(matchScore := matchScore, setHistory := m.setHistory + [current.Put(winner, 7)], setScore := None), winner))
      else
        Ok(FinishMatch(m.(matchScore := matchScore, setScore := None), winner))
    else if JavaRemainder(points + 1 + loserPoints, 2) == 1 then
      ChangeServingPlayer(m.(phase := SupertiebreakInPlay(afterPoint)))
    else Ok(m.(phase := SupertiebreakInPlay(afterPoint)))
  }

  /** The three public events of a match. */
  datatype Event = ChooseServer(server: Player) | Start | Point(winner: Player)

  /** One event: whichever it is, the players and settings stay put. */
  function Step(m: Match, e: Event): (o: Outcome)
    ensures o.next.players == m.players && o.next.settings == m.settings
  {
    match e
    case ChooseServer(p) => RegisterFirstServingPlayer(m, p)
    case Start => StartPlay(m)
    case Point(w) => RegisterPoint(m, w)
  }

  /** A client feeding events in order and carrying on after a refused
      one with whatever state the refusal left. */
  function Run(m: Match, events: seq<Event>): (r: Match)
    ensures r.players == m.players && r.settings == m.settings
    decreases |events|
  {
    if events == [] then m else Run(Step(m, events[0]).next, events[1..])
  }
}
