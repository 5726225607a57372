/** The later, split revision of the state machine: one class per phase
    (BeforeFirstGem.java, GemInProgress.java, BreakInPlay.java,
    TiebreakInPlay.java, SupertiebreakInPlay.java, MatchFinished.java),
    built on the game, tiebreak and set counters. The match-level helpers
    those classes call are not part of this model's sources; they are
    defined here after their inline counterparts in TennisMatch.java. */
module SplitPhases {
  import opened Base
  import opened Players
  import opened Scores
  import opened Settings
  import opened GemCounters
  import opened Tiebreaks
  import opened SetCounters
  import opened MatchState

  /** `currentSetScoreCounter`: the counter of the set in progress. Its
      variant is what `TennisSetScoreCounter.of` picks when the set starts,
      from the final-set resolution and whether the sets won make this the
      last set; neither changes during a set. A set score not keyed by the
      two players cannot come from that constructor and counts as missing. */
  function CurrentSetCounter(m: Match): (r: Result<SetCounter>)
    ensures r.Ok? ==> r.value.Valid() && r.value.players == m.players && m.setScore == Some(r.value.score)
    ensures r.Ok? ==> m.matchScore.Get(m.players.player1).Ok? && m.matchScore.Get(m.players.player2).Ok?
    ensures r.Ok? ==>
      var last := m.settings.IsFinalSet(m.matchScore.entries[m.players.player1], m.matchScore.entries[m.players.player2]);
      r.value.variant == NewSetCounter(m.players, m.settings.finalSetTieResolutionType, last).variant
  {
    var sets1 :- m.matchScore.Get(m.players.player1);
    var sets2 :- m.matchScore.Get(m.players.player2);
    var current :- CurrentSet(m);
    if current.entries.Keys != {m.players.player1, m.players.player2} then Err(MissingSetScore)
    else
      var opening := NewSetCounter(m.players, m.settings.finalSetTieResolutionType, m.settings.IsFinalSet(sets1, sets2));
      Ok(SetCounter(opening.variant, m.players, current))
  }

  /** `needsSuperTiebreak`: the format asks for one at this set score, or
      the set counter stands at six all in a set resolved by one. */
  function NeedsSuperTiebreak(m: Match): (r: Result<bool>)
    ensures r.Ok? <==> CurrentSetCounter(m).Ok?
    ensures r.Ok? ==>
      var sets1 := m.matchScore.entries[m.players.player1];
      var sets2 := m.matchScore.entries[m.players.player2];
      r.value == (m.settings.NeedsSuperTiebreak(sets1, sets2) || CurrentSetCounter(m).value.NeedsSuperTiebreak())
  {
    var counter :- CurrentSetCounter(m);
    var sets1 := m.matchScore.Get(m.players.player1).value;
    var sets2 := m.matchScore.Get(m.players.player2).value;
    Ok(m.settings.NeedsSuperTiebreak(sets1, sets2) || counter.NeedsSuperTiebreak())
  }

  /** `finishGem`: the game (or a tiebreak standing for one) goes to the set
      counter, refused if the set is already decided; a set the counter
      declares won is closed as at TennisMatch.java:147-153, otherwise play
      breaks. */
  function FinishGem(m: Match, winner: Player): (r: Result<Match>)
    ensures r.Ok? ==> r.value.phase.BreakInPlay? || r.value.phase == MatchFinished(winner)
    ensures r.Ok? ==> CurrentSetCounter(m).Ok? && CurrentSetCounter(m).value.Increase(winner).Ok?
    ensures r.Ok? && r.value.phase.BreakInPlay? && r.value.setScore.Some? ==>
      r.value.setScore == Some(CurrentSetCounter(m).value.Increase(winner).value.score)
    ensures r.Ok? && r.value.setScore.None? ==>
      r.value.setHistory == m.setHistory + [CurrentSetCounter(m).value.Increase(winner).value.score]
  {
    var counter :- CurrentSetCounter(m);
    var increased :- counter.Increase(winner);
    var won := increased.IsWonInLastGem(winner).value;
    if won then CloseSet(m, winner, increased.score)
    else StartBreak(m.(setScore := Some(increased.score)))
  }

  /** `startPlay` of the split phases. Only `BreakInPlay` and a successful
      `BeforeFirstGem` start a set; every refusal leaves the match as it
      was. */
  function SplitStartPlay(m: Match): (o: Outcome)
    ensures o.Rejected? ==> o.next == m || (m.phase.BreakInPlay? && o.next == EnsureSetStarted(m))
    ensures m.phase.BeforeFirstGem? ==> (o.Accepted? <==> m.server.Some?)
    ensures m.phase.BeforeFirstGem? && m.server.None? ==> o == Rejected(ServerNotChosen, m)
    ensures m.phase.BeforeFirstGem? && m.server.Some? ==>
      o.next.setScore.Some? && o.next.phase == GemInProgress(NewGemCounter(m.players, m.settings.gemScoringType))
    ensures m.phase.GemInProgress? ==> o == Rejected(GemIsInProgress, m)
    ensures m.phase.TiebreakInPlay? ==> o == Rejected(TiebreakIsInProgress, m)
    ensures m.phase.SupertiebreakInPlay? ==> o == Rejected(SupertiebreakIsInProgress, m)
    ensures m.phase.MatchFinished? ==> o == Rejected(MatchIsFinished, m)
    ensures m.phase.BreakInPlay? ==> o.next.setScore.Some?
  {
    match m.phase
    case BeforeFirstGem =>
      if m.server.None? then Rejected(ServerNotChosen, m) else Accepted(StartGem(EnsureSetStarted(m)))
    case GemInProgress(_) => Rejected(GemIsInProgress, m)
    case BreakInPlay => Settle(EnsureSetStarted(m), ResumeAfterBreak(EnsureSetStarted(m)))
    case TiebreakInPlay(_, _) => Rejected(TiebreakIsInProgress, m)
    case SupertiebreakInPlay(_) => Rejected(SupertiebreakIsInProgress, m)
    case MatchFinished(_) => Rejected(MatchIsFinished, m)
  }

  /** `BreakInPlay.startPlay` after the set is ensured: a super tiebreak if
      one is needed, else a tiebreak if the set counter asks for one, else a
      game. */
  function ResumeAfterBreak(m: Match): (r: Result<Match>)
    ensures r.Ok? <==> CurrentSetCounter(m).Ok? && (NeedsSuperTiebreak(m) == Ok(false) && CurrentSetCounter(m).value.NeedsTiebreak() ==> m.server.Some?)
    ensures r.Ok? ==> (r.value.phase.SupertiebreakInPlay? <==> NeedsSuperTiebreak(m) == Ok(true))
    ensures r.Ok? ==> (r.value.phase.TiebreakInPlay? <==> NeedsSuperTiebreak(m) == Ok(false) && CurrentSetCounter(m).value.NeedsTiebreak())
    ensures r.Ok? ==> r.value.phase.SupertiebreakInPlay? || r.value.phase.TiebreakInPlay? || r.value.phase.GemInProgress?
  {
    var superTiebreak :- NeedsSuperTiebreak(m);
    if superTiebreak then Ok(StartSuperTiebreak(m))
    else
      var counter := CurrentSetCounter(m).value;
      if counter.NeedsTiebreak() then StartTiebreak(m) else Ok(StartGem(m))
  }

  /** `registerPoint` of the split phases: only a game, a tiebreak or a
      super tiebreak takes points, and every refusal leaves the match as it
      was. */
  function SplitRegisterPoint(m: Match, winner: Player): (o: Outcome)
    ensures o.Rejected? ==> o.next == m
    ensures m.phase.BeforeFirstGem? || m.phase.BreakInPlay? ==> o == Rejected(NoPlayInProgress, m)
    ensures m.phase.MatchFinished? ==> o == Rejected(MatchIsFinished, m)
  {
    match m.phase
    case BeforeFirstGem => Rejected(NoPlayInProgress, m)
    case GemInProgress(gem) => Settle(m, GamePoint(m, gem, winner))
    case BreakInPlay => Rejected(NoPlayInProgress, m)
    case TiebreakInPlay(first, tiebreak) => Settle(m, TiebreakPoint(m, first, tiebreak, winner))
    case SupertiebreakInPlay(supertiebreak) => Settle(m, SupertiebreakPoint(m, supertiebreak, winner))
    case MatchFinished(_) => Rejected(MatchIsFinished, m)
  }

  /** `GemInProgress.registerPoint`: the counter takes the point, and the
      game is finished exactly when the point's winner has now won it. A
      counter not built by its constructor (not one or two entries) is
      refused as the source's missing other player. */
  function GamePoint(m: Match, gem: GemCounter, winner: Player): (r: Result<Match>)
    ensures r.Ok? ==> gem.Valid() && gem.Increment(winner).Ok?
    ensures r.Ok? ==> (r.value.phase.GemInProgress? <==> gem.Increment(winner).value.HasWon(winner) == Ok(false))
    ensures r.Ok? && r.value.phase.GemInProgress? ==> r.value.CurrentGemScore() == Some(gem.Increment(winner).value.score)
  {
    if !gem.Valid() then Err(NoOtherPlayer)
    else
      var incremented :- gem.Increment(winner);
      var playing := m.(phase := GemInProgress(incremented));
      var won :- incremented.HasWon(winner);
      if won then FinishGem(playing, winner) else Ok(playing)
  }

  /** `TiebreakInPlay.registerPoint`: the counter takes the point; the
      winning point finishes the game and hands the serve to the player who
      did not serve first in the tiebreak; any other point changes the
      server exactly when the total played is odd. */
  function TiebreakPoint(m: Match, first: Player, tiebreak: TiebreakCounter, winner: Player): (r: Result<Match>)
    ensures r.Ok? ==> tiebreak.Valid() && tiebreak.Increment(winner).Ok?
    ensures r.Ok? ==> var next := tiebreak.Increment(winner).value;
      next.IsWon(winner).Ok?
      && (next.IsWon(winner).value ==> r.value.server == Some(m.players.Opponent(first)) && !r.value.phase.TiebreakInPlay?)
      && (!next.IsWon(winner).value ==> r.value.phase == TiebreakInPlay(first, next))
      && (!next.IsWon(winner).value && next.ShouldChangeServingPlayer() ==>
            m.server.Some? && r.value.server == Some(m.players.Opponent(m.server.value)))
      && (!next.IsWon(winner).value && !next.ShouldChangeServingPlayer() ==> r.value.server == m.server)
  {
    if !tiebreak.Valid() then Err(NoOtherPlayer)
    else
      var incremented :- tiebreak.Increment(winner);
      var playing := m.(phase := TiebreakInPlay(first, incremented));
      var won :- incremented.IsWon(winner);
      if won then
        var finished :- FinishGem(playing, winner);
        Ok(finished.(server := Some(m.players.Opponent(first))))
      else if incremented.ShouldChangeServingPlayer() then ChangeServingPlayer(playing)
      else Ok(playing)
  }

  /** `SupertiebreakInPlay.registerPoint`: the winning point counts as a
      game of the set under the super-tiebreak resolution, and otherwise
      closes the set with the super tiebreak's own score as the set score;
      any other point changes the server exactly when the total is odd. */
  function SupertiebreakPoint(m: Match, supertiebreak: TiebreakCounter, winner: Player): (r: Result<Match>)
    ensures r.Ok? ==> supertiebreak.Valid() && supertiebreak.Increment(winner).Ok?
    ensures r.Ok? ==> var next := supertiebreak.Increment(winner).value;
      next.IsWon(winner).Ok?
      && (next.IsWon(winner).value && m.settings.finalSetTieResolutionType != ResolveBySuperTiebreak ==>
            r.value.setHistory == m.setHistory + [next.score] && r.value.setScore.None?)
      && (!next.IsWon(winner).value ==> r.value.phase == SupertiebreakInPlay(next) && r.value.setHistory == m.setHistory)
      && (!next.IsWon(winner).value && next.ShouldChangeServingPlayer() ==>
            m.server.Some? && r.value.server == Some(m.players.Opponent(m.server.value)))
      && (!next.IsWon(winner).value && !next.ShouldChangeServingPlayer() ==> r.value.server == m.server)
  {
    if !supertiebreak.Valid() then Err(NoOtherPlayer)
    else
      var incremented :- supertiebreak.Increment(winner);
      var playing := m.(phase := SupertiebreakInPlay(incremented));
      var won :- incremented.IsWon(winner);
      if won then
        if m.settings.finalSetTieResolutionType == ResolveBySuperTiebreak then FinishGem(playing, winner)
        else CloseSet(playing, winner, incremented.score)
      else if incremented.ShouldChangeServingPlayer() then ChangeServingPlayer(playing)
      else Ok(playing)
  }
}
