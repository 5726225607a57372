/** The state of a match (the fields of TennisMatch.java), its phases (the
    `MatchState` implementations) and the transitions every revision of the
    state machine shares. */
module MatchState {
  import opened Base
  import opened Players
  import opened Scores
  import opened GemPoints
  import opened Settings
  import opened GemCounters
  import opened Tiebreaks

  /** The phase a match is in; each phase carries the counter it owns. */
  datatype Phase =
    | BeforeFirstGem
    | GemInProgress(gem: GemCounter)
    | BreakInPlay
    | TiebreakInPlay(firstServer: Player, tiebreak: TiebreakCounter)
    | SupertiebreakInPlay(supertiebreak: TiebreakCounter)
    | MatchFinished(winner: Player)

  /** A match: the two players, the settings, the sets won, the games of the
      set in progress (absent between a finished set and the next start of
      play), the finished sets in order, the server (absent until chosen)
      and the phase. */
  datatype Match = Match(
    players: Players,
    settings: MatchSettings,
    matchScore: Score<int>,
    setScore: Option<Score<int>>,
    setHistory: seq<Score<int>>,
    server: Option<Player>,
    phase: Phase)
  {
    /** `getCurrentGemScore`: only a game in progress has one. */
    function CurrentGemScore(): Option<Score<GemPoint>> {
      if phase.GemInProgress? then Some(phase.gem.score) else None
    }

    /** `getMatchWinner`: only a finished match has one. */
    function MatchWinner(): Option<Player> {
      if phase.MatchFinished? then Some(phase.winner) else None
    }
  }

  /** What an event leaves behind: the next state, and on a refusal the
      error. A refused event may still have changed the state, as the source
      mutates fields before some of its exceptions. */
  datatype Outcome =
    | Accepted(next: Match)
    | Rejected(error: Error, next: Match)

  /** Constructor: no sets, no set started, no server, before the first
      game. */
  function NewMatch(players: Players, settings: MatchSettings): (m: Match)
    requires players.Distinct()
    ensures m.phase == BeforeFirstGem && m.server == None && m.setScore == None && m.setHistory == []
    ensures m.matchScore.entries.Keys == {players.player1, players.player2}
    ensures forall p :: players.Has(p) ==> m.matchScore.Get(p) == Ok(0)
    ensures m.MatchWinner() == None && m.CurrentGemScore() == None
  {
    OfIsWellFormed(players.player1, 0, players.player2, 0);
    Match(players, settings, Fresh(players, 0), None, [], None, BeforeFirstGem)
  }

  /** An internal computation's result as an event outcome: a failure leaves
      the state it started from. */
  function Settle(before: Match, r: Result<Match>): (o: Outcome)
    ensures o.Rejected? <==> r.Err?
    ensures r.Err? ==> o.error == r.error && o.next == before
    ensures r.Ok? ==> o.next == r.value
  {
    match r
    case Ok(next) => Accepted(next)
    case Err(e) => Rejected(e, before)
  }

  /** The current set's games; a missing set is the source's null
      dereference. */
  function CurrentSet(m: Match): (r: Result<Score<int>>)
    ensures r.Ok? <==> m.setScore.Some?
    ensures r.Ok? ==> r.value == m.setScore.value
    ensures r.Err? ==> r.error == MissingSetScore
  {
    if m.setScore.Some? then Ok(m.setScore.value) else Err(MissingSetScore)
  }

  /** TennisMatch.java:53-55, `ensureSetStarted` in the split revision: a set
      at zero all when none is in progress. */
  function EnsureSetStarted(m: Match): (r: Match)
    ensures r.setScore.Some?
    ensures m.setScore.Some? ==> r == m
    ensures m.setScore.None? ==> r == m.(setScore := Some(Fresh(m.players, 0)))
  {
    if m.setScore.None? then m.(setScore := Some(Fresh(m.players, 0))) else m
  }

  /** `startGem`: a new game counter for the match's scoring policy. */
  function StartGem(m: Match): (r: Match)
    ensures r == m.(phase := r.phase) && r.phase.GemInProgress?
    ensures r.phase.gem.AdvantageCounter? <==> m.settings.gemScoringType == WithAdvantage
    ensures forall p :: m.players.Has(p) ==> r.phase.gem.score.Get(p) == Ok(Zero)
  {
    m.(phase := GemInProgress(NewGemCounter(m.players, m.settings.gemScoringType)))
  }

  /** `startTiebreak`: a tiebreak to seven, remembering who serves first. */
  function StartTiebreak(m: Match): (r: Result<Match>)
    ensures r.Ok? <==> m.server.Some?
    ensures r.Err? ==> r.error == MissingServer
    ensures r.Ok? ==> r.value == m.(phase := r.value.phase) && r.value.phase.TiebreakInPlay?
    ensures r.Ok? ==> r.value.phase.firstServer == m.server.value
    ensures r.Ok? ==> var t := r.value.phase.tiebreak;
      t.Valid() && t.players == m.players && t.winningScore == 7
      && forall p :: m.players.Has(p) ==> t.score.Get(p) == Ok(0)
  {
    if m.server.None? then Err(MissingServer)
    else Ok(m.(phase := TiebreakInPlay(m.server.value, NewTiebreakCounter(m.players, 7))))
  }

  /** `startSuperTiebreak`: a tiebreak to ten. */
  function StartSuperTiebreak(m: Match): (r: Match)
    ensures r == m.(phase := r.phase) && r.phase.SupertiebreakInPlay?
    ensures var t := r.phase.supertiebreak;
      t.Valid() && t.players == m.players && t.winningScore == 10
      && forall p :: m.players.Has(p) ==> t.score.Get(p) == Ok(0)
  {
    m.(phase := SupertiebreakInPlay(NewTiebreakCounter(m.players, 10)))
  }

  /** The other player serves: `server.equals(player1) ? player2 : player1`. */
  function ChangeServingPlayer(m: Match): (r: Result<Match>)
    ensures r.Ok? <==> m.server.Some?
    ensures r.Err? ==> r.error == MissingServer
    ensures r.Ok? ==> r.value == m.(server := r.value.server) && r.value.server.Some?
    ensures r.Ok? ==> m.players.Has(r.value.server.value)
    ensures r.Ok? && m.players.Distinct() && m.players.Has(m.server.value) ==>
      r.value.server.value != m.server.value
  {
    if m.server.None? then Err(MissingServer)
    else Ok(m.(server := Some(m.players.Opponent(m.server.value))))
  }

  /** `startBreak` (TennisMatch.java:171-174): the serve passes to the other
      player and the match waits for the next start of play. */
  function StartBreak(m: Match): (r: Result<Match>)
    ensures r.Ok? <==> m.server.Some?
    ensures r.Err? ==> r.error == MissingServer
    ensures r.Ok? ==> r.value == m.(server := r.value.server, phase := BreakInPlay)
    ensures r.Ok? ==> r.value.server == Some(m.players.Opponent(m.server.value))
  {
    var changed :- ChangeServingPlayer(m);
    Ok(changed.(phase := BreakInPlay))
  }

  /** `finishMatch`: the winner is fixed for good. */
  function FinishMatch(m: Match, winner: Player): (r: Match)
    ensures r == m.(phase := r.phase) && r.MatchWinner() == Some(winner)
  {
    m.(phase := MatchFinished(winner))
  }

  /** The test TennisMatch.java applies after a set: two sets in a best of
      three, three in a best of five, and never in the two-set format. */
  predicate EndsMatchAfterSet(format: MatchFormat, winnerSets: int) {
    (format == BestOfThree && winnerSets == 2) || (format == BestOfFive && winnerSets == 3)
  }

  /** The inline set test is the format's `isMatchFinished` with the
      two-set format left out. */
  lemma EndsMatchIsFinishedButForTwoSets(format: MatchFormat, winnerSets: int)
    ensures EndsMatchAfterSet(format, winnerSets)
      <==> format.IsMatchFinished(winnerSets) && format != BestOfTwoWithSuperTiebreak
    ensures !EndsMatchAfterSet(BestOfTwoWithSuperTiebreak, 2) && BestOfTwoWithSuperTiebreak.IsMatchFinished(2)
  {
  }

  /** TennisMatch.java:147-153 and 254-261: a set goes to `winner`, is
      recorded, the set in progress is cleared, and the match either ends or
      breaks. */
  function CloseSet(m: Match, winner: Player, finishedSet: Score<int>): (r: Result<Match>)
    ensures r.Ok? <==>
      (winner in m.matchScore.entries
       && (EndsMatchAfterSet(m.settings.matchFormat, m.matchScore.entries[winner] + 1) || m.server.Some?))
    ensures r.Ok? ==> r.value.matchScore.Get(winner) == Ok(m.matchScore.entries[winner] + 1)
    ensures r.Ok? ==> forall q :: q != winner ==> r.value.matchScore.Get(q) == m.matchScore.Get(q)
    ensures r.Ok? ==> r.value.setHistory == m.setHistory + [finishedSet] && r.value.setScore.None?
    ensures r.Ok? ==> r.value.players == m.players && r.value.settings == m.settings
    ensures r.Ok? ==>
      if EndsMatchAfterSet(m.settings.matchFormat, m.matchScore.entries[winner] + 1)
      then r.value.MatchWinner() == Some(winner) && r.value.server == m.server
      else r.value.phase == BreakInPlay && r.value.server == Some(m.players.Opponent(m.server.value))
  {
    var sets :- m.matchScore.Get(winner);
    var closed := m.(matchScore := m.matchScore.Put(winner, sets + 1),
                     setHistory := m.setHistory + [finishedSet],
                     setScore := None);
    if EndsMatchAfterSet(m.settings.matchFormat, sets + 1) then Ok(FinishMatch(closed, winner))
    else StartBreak(closed)
  }
}
