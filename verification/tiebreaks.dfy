/** The tiebreak counter of TiebreakScoreCounter.java, shared by the
    seven-point tiebreak and the ten-point super tiebreak. */
module Tiebreaks {
  import opened Base
  import opened Players
  import opened Scores

  /** Points of each player in a tiebreak played to `winningScore`. */
  datatype TiebreakCounter = TiebreakCounter(players: Players, winningScore: int, score: Score<int>) {

    /** The score is keyed by the counter's two players, as the constructor
        leaves it and every increment keeps it. */
    predicate Valid() {
      score.entries.Keys == {players.player1, players.player2}
    }

    /** `isWon`: at least the winning score and at least two points ahead.
        As in the source's `&&`, the other player's score is only looked up
        once the winning score is reached. */
    function IsWon(p: Player): (r: Result<bool>)
      requires Valid()
      ensures r.Ok? <==> p in score.entries && (score.entries[p] < winningScore || score.entries.Keys != {p})
      ensures r.Ok? ==> (r.value <==>
        exists q :: q in score.entries && q != p && score.entries[p] >= winningScore && score.entries[p] - score.entries[q] >= 2)
    {
      KeyedByTwoIsWellFormed(score, players.player1, players.player2);
      var own :- score.Get(p);
      if own < winningScore then Ok(false)
      else
        var other :- score.Other(p);
        OtherKeyIsUnique(score.entries, p);
        Ok(own - other >= 2)
    }

    /** `increment`: refused once `p` has won, otherwise one more point for
        `p` and nothing else changes. */
    function Increment(p: Player): (r: Result<TiebreakCounter>)
      requires Valid()
      ensures r.Ok? ==> IsWon(p) == Ok(false)
      ensures r.Ok? ==> r.value.Valid() && r.value.players == players && r.value.winningScore == winningScore
      ensures r.Ok? ==> r.value.score.Get(p) == Ok(score.entries[p] + 1)
      ensures r.Ok? ==> forall q :: q != p ==> r.value.score.Get(q) == score.Get(q)
      ensures IsWon(p) == Ok(true) ==> r == Err(TiebreakIsFinished)
      ensures IsWon(p) == Ok(false) ==> r.Ok?
    {
      var won :- IsWon(p);
      if won then Err(TiebreakIsFinished)
      else Ok(this.(score := score.Update(p, score.entries[p] + 1).value))
    }

    /** `shouldChangeServingPlayer`: an odd number of points played. */
    function ShouldChangeServingPlayer(): (r: bool)
      requires Valid()
      ensures players.Distinct() ==> (r <==> Total() >= 0 && Total() % 2 == 1)
    {
      JavaRemainder(score.entries[players.player1] + score.entries[players.player2], 2) == 1
    }

    /** Points played so far. */
    function Total(): int
      requires Valid()
    {
      if players.player1 == players.player2 then score.entries[players.player1]
      else score.entries[players.player1] + score.entries[players.player2]
    }
  }

  /** Constructor: a tiebreak to `winningScore` starting at zero all. */
  function NewTiebreakCounter(players: Players, winningScore: int): (c: TiebreakCounter)
    ensures c.Valid() && c.players == players && c.winningScore == winningScore
    ensures forall p :: players.Has(p) ==> c.score.Get(p) == Ok(0)
  {
    OfIsWellFormed(players.player1, 0, players.player2, 0);
    TiebreakCounter(players, winningScore, Fresh(players, 0))
  }

  /** Points `points` played one after the other; stops at the first
      refused point. */
  function PlayPoints(c: TiebreakCounter, points: seq<Player>): (r: Result<TiebreakCounter>)
    requires c.Valid()
    ensures r.Ok? ==> r.value.Valid() && r.value.players == c.players
    decreases |points|
  {
    if points == [] then Ok(c)
    else
      var next :- c.Increment(points[0]);
      PlayPoints(next, points[1..])
  }

  /** The win rule: with target ten, nine all is not won and ten-eight is. */
  lemma WinNeedsTargetAndMargin(players: Players, p: Player)
    requires players.Distinct() && players.Has(p)
    ensures var q := players.Opponent(p);
      && !TiebreakCounter(players, 10, Of(p, 9, q, 9)).IsWon(p).value
      && TiebreakCounter(players, 10, Of(p, 10, q, 8)).IsWon(p).value
      && !TiebreakCounter(players, 10, Of(p, 10, q, 9)).IsWon(p).value
      && TiebreakCounter(players, 7, Of(p, 7, q, 5)).IsWon(p).value
  {
    var q := players.Opponent(p);
    OfIsWellFormed(p, 9, q, 9);
    OfIsWellFormed(p, 10, q, 8);
    OfIsWellFormed(p, 10, q, 9);
    OfIsWellFormed(p, 7, q, 5);
    OtherOfTwoPlayers(p, 9, q, 9);
    OtherOfTwoPlayers(p, 10, q, 8);
    OtherOfTwoPlayers(p, 10, q, 9);
    OtherOfTwoPlayers(p, 7, q, 5);
  }

  /** A counter whose two players are the same keeps taking points while it
      is below the target, since the other score is never consulted there;
      once at the target the missing opponent is an error. */
  lemma LonePlayerPlaysUpToTarget(p: Player, target: int, v: int)
    ensures var c := TiebreakCounter(Players(p, p), target, Of(p, v, p, v));
      && (v < target ==> c.IsWon(p) == Ok(false) && c.Increment(p) == Ok(c.(score := Of(p, v + 1, p, v + 1))))
      && (v >= target ==> c.IsWon(p).Err? && c.Increment(p).Err?)
  {
    var c := TiebreakCounter(Players(p, p), target, Of(p, v, p, v));
    OfIsWellFormed(p, v, p, v);
    assert c.score.entries.Keys == {p};
    if v < target {
      assert c.score.entries[p := v + 1] == Of(p, v + 1, p, v + 1).entries;
    }
  }

  /** Because of the two-point margin at most one player has won. */
  lemma AtMostOneWinner(c: TiebreakCounter)
    requires c.Valid() && c.players.Distinct()
    ensures !(c.IsWon(c.players.player1) == Ok(true) && c.IsWon(c.players.player2) == Ok(true))
  {
  }

  /** A fresh counter has seen no points. */
  lemma NewCounterIsLoveAll(players: Players, winningScore: int)
    requires players.Distinct()
    ensures NewTiebreakCounter(players, winningScore).Total() == 0
    ensures !NewTiebreakCounter(players, winningScore).ShouldChangeServingPlayer()
  {
  }

  /** Every accepted point adds one to the points played. */
  lemma {:induction false} PointsAddUp(c: TiebreakCounter, points: seq<Player>)
    requires c.Valid() && c.players.Distinct()
    requires PlayPoints(c, points).Ok?
    ensures PlayPoints(c, points).value.Total() == c.Total() + |points|
    decreases |points|
  {
    if points != [] {
      var next := c.Increment(points[0]).value;
      assert next.Total() == c.Total() + 1;
      PointsAddUp(next, points[1..]);
    }
  }

  /** The serve rotates after the first, third, fifth ... point of a
      tiebreak: after `points` from a fresh counter, the serve should change
      exactly when an odd number of points has been played. */
  lemma ServeChangesAfterOddPoints(players: Players, winningScore: int, points: seq<Player>)
    requires players.Distinct()
    requires PlayPoints(NewTiebreakCounter(players, winningScore), points).Ok?
    ensures PlayPoints(NewTiebreakCounter(players, winningScore), points).value.ShouldChangeServingPlayer()
      <==> |points| % 2 == 1
  {
    PointsAddUp(NewTiebreakCounter(players, winningScore), points);
  }

  /** From any counter with a non-negative total, the serve should change
      after a run of points exactly when the new total is odd. */
  lemma ServeFollowsPointsPlayed(c: TiebreakCounter, points: seq<Player>)
    requires c.Valid() && c.players.Distinct() && c.Total() >= 0
    requires PlayPoints(c, points).Ok?
    ensures PlayPoints(c, points).value.ShouldChangeServingPlayer() <==> (c.Total() + |points|) % 2 == 1
  {
    var d := PlayPoints(c, points).value;
    PointsAddUp(c, points);
    assert d.Valid() && d.players.Distinct();
    var n := c.Total() + |points|;
    assert d.Total() == n && n >= 0;
    ServeByTotal(d, n);
  }

  /** A counter with `n` points played should hand over the serve exactly
      when `n` is odd. */
  lemma ServeByTotal(d: TiebreakCounter, n: int)
    requires d.Valid() && d.players.Distinct() && d.Total() == n && n >= 0
    ensures d.ShouldChangeServingPlayer() <==> n % 2 == 1
  {
  }

  /** A counter standing at `points` to `loserPoints` is won and hands over
      the serve exactly as the inline tests on those two numbers say. */
  lemma CountedTiebreakFacts(c: TiebreakCounter, winner: Player, loser: Player, points: int, loserPoints: int)
    requires winner != loser && c.players.Has(winner) && loser == c.players.Opponent(winner)
    requires c.score == Of(winner, points, loser, loserPoints)
    ensures c.Valid() && c.score.Get(loser) == Ok(loserPoints)
    ensures c.IsWon(winner) == Ok(points >= c.winningScore && points - loserPoints >= 2)
    ensures c.ShouldChangeServingPlayer() <==> JavaRemainder(points + loserPoints, 2) == 1
  {
    OtherOfTwoPlayers(winner, points, loser, loserPoints);
    if winner == c.players.player1 {
      assert c.score.entries[c.players.player2] == loserPoints;
    } else {
      assert c.score.entries[c.players.player1] == loserPoints;
      assert points + loserPoints == loserPoints + points;
    }
  }
}
