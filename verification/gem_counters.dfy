/** The game counter of GemScoreCounter.java: a score of game points and the
    point-by-point rules of the two scoring policies. */
module GemCounters {
  import opened Base
  import opened Players
  import opened Scores
  import opened GemPoints
  import opened Settings

  /** The two counter classes. The advantage counter keeps the players so
      that it can reset the game to deuce. */
  datatype GemCounter =
    | AdvantageCounter(players: Players, score: Score<GemPoint>)
    | GoldenBallCounter(score: Score<GemPoint>)
  {
    /** The score map's own invariant, which `Other` relies on. */
    predicate Valid() {
      score.WellFormed()
    }

    /** The same counter class holding another score. */
    function WithScore(s: Score<GemPoint>): (c: GemCounter)
      ensures c.score == s && c.AdvantageCounter? == AdvantageCounter?
      ensures AdvantageCounter? ==> c.players == players
    {
      if AdvantageCounter? then AdvantageCounter(players, s) else GoldenBallCounter(s)
    }

    /** `hasWon`: the player's entry is `Gem`. */
    function HasWon(p: Player): (r: Result<bool>)
      ensures r.Ok? <==> p in score.entries
      ensures r.Ok? ==> (r.value <==> score.entries[p] == Gem)
    {
      var points :- score.Get(p);
      Ok(points == Gem)
    }

    /** `increment`: one point to `p` under the counter's policy. Both
        policies refuse a point to a player already on `Gem`, and look up the
        opponent's points before deciding. */
    function Increment(p: Player): (r: Result<GemCounter>)
      requires Valid()
      ensures r.Ok? ==> r.value.Valid()
      ensures r.Ok? ==> r.value.AdvantageCounter? == AdvantageCounter?
      ensures r.Ok? && AdvantageCounter? ==> r.value.players == players
    {
      var points :- score.Get(p);
      if points == Gem then Err(GemIsFinished)
      else
        var otherPoints :- score.Other(p);
        if AdvantageCounter? then
          if otherPoints == Advantage then
            OfIsWellFormed(players.player1, Fourty, players.player2, Fourty);
            Ok(AdvantageCounter(players, Deuce(players)))
          else if points == Fourty && otherPoints != Fourty then
            Ok(AdvantageCounter(players, score.Update(p, Gem).value))
          else
            Ok(AdvantageCounter(players, SetIncremented(score, p, points).value))
        else
          if points == Fourty then
            Ok(GoldenBallCounter(score.Update(p, Gem).value))
          else
            Ok(GoldenBallCounter(SetIncremented(score, p, points).value))
    }
  }

  /** `setDeuce`: both players back on forty. */
  function Deuce(players: Players): Score<GemPoint> {
    Of(players.player1, Fourty, players.player2, Fourty)
  }

  /** `setIncremented`: the player moves to the next call in enum order. */
  function SetIncremented(score: Score<GemPoint>, p: Player, current: GemPoint): (r: Result<Score<GemPoint>>)
    requires current != Gem
    ensures r.Ok? <==> p in score.entries
    ensures r.Ok? ==> r.value.entries.Keys == score.entries.Keys
    ensures r.Ok? ==> Next(current).Some? && r.value.Get(p) == Ok(Next(current).value)
  {
    PointOrder(current, current, current);
    score.Update(p, Next(current).value)
  }

  /** `GemScoreCounter.of`: the advantage counter for `WithAdvantage`, the
      golden-ball counter otherwise, both starting from zero all. */
  function NewGemCounter(players: Players, scoring: GemScoringType): (c: GemCounter)
    ensures c.Valid()
    ensures c.AdvantageCounter? <==> scoring == WithAdvantage
    ensures c.AdvantageCounter? ==> c.players == players
    ensures c.score.entries.Keys == {players.player1, players.player2}
    ensures forall p :: players.Has(p) ==> c.score.Get(p) == Ok(Zero)
  {
    OfIsWellFormed(players.player1, Zero, players.player2, Zero);
    if scoring == WithAdvantage then AdvantageCounter(players, Fresh(players, Zero))
    else GoldenBallCounter(Fresh(players, Zero))
  }

  /** Under either policy a point to a player who already holds `Gem` is
      refused. */
  lemma IncrementAfterGemFails(c: GemCounter, p: Player)
    requires c.Valid()
    requires c.score.Get(p) == Ok(Gem)
    ensures c.Increment(p) == Err(GemIsFinished)
    ensures c.HasWon(p) == Ok(true)
  {
  }

  /** Advantage policy, deuce: a point against a player on advantage puts
      both players back on forty. */
  lemma AdvantageDeuce(players: Players, s: Score<GemPoint>, p: Player, points: GemPoint)
    requires s.WellFormed() && s.Get(p) == Ok(points) && points != Gem
    requires s.Other(p) == Ok(Advantage)
    ensures AdvantageCounter(players, s).Increment(p) == Ok(AdvantageCounter(players, Deuce(players)))
    ensures forall q :: players.Has(q) ==> Deuce(players).Get(q) == Ok(Fourty)
  {
    OfIsWellFormed(players.player1, Fourty, players.player2, Fourty);
  }

  /** Advantage policy: a player on forty whose opponent is on neither forty
      nor advantage takes the game. */
  lemma AdvantageWinFromFourty(players: Players, s: Score<GemPoint>, p: Player, otherPoints: GemPoint)
    requires s.WellFormed() && s.Get(p) == Ok(Fourty) && s.Other(p) == Ok(otherPoints)
    requires otherPoints != Fourty && otherPoints != Advantage
    ensures AdvantageCounter(players, s).Increment(p).Ok?
    ensures AdvantageCounter(players, s).Increment(p).value.HasWon(p) == Ok(true)
  {
  }

  /** Advantage policy, otherwise: the player moves one call up, so
      forty-all becomes advantage and advantage becomes the game. */
  lemma AdvantageStepsUp(players: Players, s: Score<GemPoint>, p: Player, points: GemPoint, otherPoints: GemPoint)
    requires s.WellFormed() && s.Get(p) == Ok(points) && s.Other(p) == Ok(otherPoints)
    requires points != Gem && otherPoints != Advantage
    requires !(points == Fourty && otherPoints != Fourty)
    ensures AdvantageCounter(players, s).Increment(p).Ok?
    ensures Next(points).Some?
    ensures AdvantageCounter(players, s).Increment(p).value.score.Get(p) == Ok(Next(points).value)
    ensures points == Fourty ==> AdvantageCounter(players, s).Increment(p).value.score.Get(p) == Ok(Advantage)
    ensures points == Advantage ==> AdvantageCounter(players, s).Increment(p).value.HasWon(p) == Ok(true)
  {
  }

  /** Golden-ball policy: a point at forty wins the game whatever the
      opponent holds; below forty the player moves one call up. */
  lemma GoldenBallRule(s: Score<GemPoint>, p: Player, points: GemPoint)
    requires s.WellFormed() && s.Get(p) == Ok(points) && points != Gem
    requires s.Other(p).Ok?
    ensures GoldenBallCounter(s).Increment(p).Ok?
    ensures points == Fourty ==> GoldenBallCounter(s).Increment(p).value.HasWon(p) == Ok(true)
    ensures points != Fourty ==>
      Next(points).Some? && GoldenBallCounter(s).Increment(p).value.score.Get(p) == Ok(Next(points).value)
  {
  }

  /** Golden-ball policy: a game that starts without advantage never shows
      one, because only a player below forty steps up. */
  lemma GoldenBallNeverAdvantage(s: Score<GemPoint>, p: Player)
    requires s.WellFormed()
    requires forall q :: q in s.entries ==> s.entries[q] != Advantage
    ensures var r := GoldenBallCounter(s).Increment(p);
      r.Ok? ==> forall q :: q in r.value.score.entries ==> r.value.score.entries[q] != Advantage
  {
  }

  /** Apart from deuce, a point changes only the scorer's entry. */
  lemma OnlyScorerChanges(c: GemCounter, p: Player, q: Player)
    requires c.Valid() && q != p
    requires c.Increment(p).Ok?
    requires c.AdvantageCounter? ==> c.score.Other(p) != Ok(Advantage)
    ensures c.Increment(p).value.score.Get(q) == c.score.Get(q)
    ensures c.Increment(p).value.score.entries.Keys == c.score.entries.Keys
  {
  }

  // ---------------------------------------------------------------------
  // The counters against a reference: games counted in points won.
  // ---------------------------------------------------------------------

  /** The call for 0, 1, 2 or 3 points won. */
  function Called(n: nat): GemPoint
    requires n <= 3
  {
    if n == 0 then Zero else if n == 1 then Fifteen else if n == 2 then Thirty else Fourty
  }

  /** Reference rule with advantage: a game is won at four points or more
      with a lead of two. */
  predicate AdvantageGameWon(own: nat, other: nat) {
    own >= 4 && own - other >= 2
  }

  /** How the advantage counter should call a player who has won `own`
      points against `other`. */
  function AdvantageCall(own: nat, other: nat): GemPoint {
    if AdvantageGameWon(own, other) then Gem
    else if own >= 3 && other >= 3 && own == other + 1 then Advantage
    else if own >= 3 then Fourty
    else Called(own)
  }

  /** The advantage counter's expected score after `own` points for `p` and
      `other` points for the opponent. */
  function AdvantageView(players: Players, p: Player, own: nat, other: nat): Score<GemPoint> {
    Of(p, AdvantageCall(own, other), players.Opponent(p), AdvantageCall(other, own))
  }

  /** Reference rule with golden ball: the first player to four points wins. */
  predicate GoldenBallGameWon(own: nat) {
    own >= 4
  }

  function GoldenBallCall(own: nat): GemPoint {
    if GoldenBallGameWon(own) then Gem else Called(own)
  }

  function GoldenBallView(players: Players, p: Player, own: nat, other: nat): Score<GemPoint> {
    Of(p, GoldenBallCall(own), players.Opponent(p), GoldenBallCall(other))
  }

  /** A fresh counter shows no points for either player. */
  lemma NewCounterShowsNoPoints(players: Players, p: Player)
    requires players.Distinct() && players.Has(p)
    ensures NewGemCounter(players, WithAdvantage).score == AdvantageView(players, p, 0, 0)
    ensures NewGemCounter(players, WithGoldenBall).score == GoldenBallView(players, p, 0, 0)
  {
    if p == players.player2 {
      OfOrderIrrelevant(players.player1, Zero, players.player2, Zero);
    }
  }

  /** The advantage counter implements "four points and two clear": from any
      unfinished game, one point to `p` moves the counter to the call of the
      new point counts, and `p` has won exactly when the reference rule says
      so. (A point to the opponent is the same step seen from the other side,
      since `AdvantageView(players, p, x, y)` equals
      `AdvantageView(players, players.Opponent(p), y, x)`.) */
  lemma {:induction false} AdvantageCounterTracksPoints(players: Players, p: Player, own: nat, other: nat)
    requires players.Distinct() && players.Has(p)
    requires !AdvantageGameWon(own, other) && !AdvantageGameWon(other, own)
    ensures AdvantageCounter(players, AdvantageView(players, p, own, other)).Valid()
    ensures AdvantageCounter(players, AdvantageView(players, p, own, other)).Increment(p)
      == Ok(AdvantageCounter(players, AdvantageView(players, p, own + 1, other)))
    ensures AdvantageCounter(players, AdvantageView(players, p, own + 1, other)).HasWon(p)
      == Ok(AdvantageGameWon(own + 1, other))
  {
    var q := players.Opponent(p);
    var s := AdvantageView(players, p, own, other);
    OfIsWellFormed(p, AdvantageCall(own, other), q, AdvantageCall(other, own));
    OtherOfTwoPlayers(p, AdvantageCall(own, other), q, AdvantageCall(other, own));
    var after := AdvantageView(players, p, own + 1, other);
    if own >= 3 && other == own + 1 {
      // deuce: the opponent held advantage
      assert AdvantageCall(other, own) == Advantage;
      assert AdvantageCall(own + 1, other) == Fourty && AdvantageCall(other, own + 1) == Fourty;
      if p == players.player1 {
        assert Deuce(players) == after;
      } else {
        OfOrderIrrelevant(players.player1, Fourty, players.player2, Fourty);
        assert Deuce(players) == after;
      }
    } else if AdvantageCall(own, other) == Fourty && AdvantageCall(other, own) != Fourty {
      assert AdvantageCall(own + 1, other) == Gem;
      UpdateOfFirst(p, AdvantageCall(own, other), q, AdvantageCall(other, own), Gem);
    } else {
      assert Next(AdvantageCall(own, other)) == Some(AdvantageCall(own + 1, other));
      UpdateOfFirst(p, AdvantageCall(own, other), q, AdvantageCall(other, own), AdvantageCall(own + 1, other));
    }
  }

  /** The golden-ball counter implements "first to four points": from any
      unfinished game one point to `p` moves the counter to the call of the
      new counts, and `p` has won exactly at the fourth point. */
  lemma {:induction false} GoldenBallCounterTracksPoints(players: Players, p: Player, own: nat, other: nat)
    requires players.Distinct() && players.Has(p)
    requires own <= 3 && other <= 3
    ensures GoldenBallCounter(GoldenBallView(players, p, own, other)).Valid()
    ensures GoldenBallCounter(GoldenBallView(players, p, own, other)).Increment(p)
      == Ok(GoldenBallCounter(GoldenBallView(players, p, own + 1, other)))
    ensures GoldenBallCounter(GoldenBallView(players, p, own + 1, other)).HasWon(p)
      == Ok(GoldenBallGameWon(own + 1))
  {
    var q := players.Opponent(p);
    var s := GoldenBallView(players, p, own, other);
    OfIsWellFormed(p, GoldenBallCall(own), q, GoldenBallCall(other));
    OtherOfTwoPlayers(p, GoldenBallCall(own), q, GoldenBallCall(other));
    var after := GoldenBallView(players, p, own + 1, other);
    if own == 3 {
      UpdateOfFirst(p, GoldenBallCall(own), q, GoldenBallCall(other), Gem);
    } else {
      assert Next(GoldenBallCall(own)) == Some(GoldenBallCall(own + 1));
      UpdateOfFirst(p, GoldenBallCall(own), q, GoldenBallCall(other), GoldenBallCall(own + 1));
    }
  }
}
