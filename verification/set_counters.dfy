/** The set counter of TennisSetScoreCounter.java: games of each player in
    the current set, under one of three rules chosen when the set starts. */
module SetCounters {
  import opened Base
  import opened Players
  import opened Scores
  import opened Settings

  /** The three counter classes: an advantage set with no ceiling, a set
      with a tiebreak at six all, and a set with a super tiebreak at six
      all. */
  datatype SetVariant = AdvantageSet | TiebreakSet | SuperTiebreakSet

  datatype SetCounter = SetCounter(variant: SetVariant, players: Players, score: Score<int>) {

    /** The score is keyed by the counter's two players. */
    predicate Valid() {
      score.entries.Keys == {players.player1, players.player2}
    }

    /** `isWonInLastGem`: has `p` taken the set with the game just played. */
    function IsWonInLastGem(p: Player): (r: Result<bool>)
      requires Valid()
      ensures r.Ok? <==> p in score.entries && score.entries.Keys != {p}
    {
      KeyedByTwoIsWellFormed(score, players.player1, players.player2);
      var own :- score.Get(p);
      var other :- score.Other(p);
      match variant
      case AdvantageSet => Ok(own >= 6 && own - other >= 2)
      case TiebreakSet => Ok((own == 6 && own - other >= 2) || own == 7)
      case SuperTiebreakSet => Ok((own == 6 && own - other >= 2) || own == 7)
    }

    /** `increase`: refused once `p` has taken the set, otherwise one more
        game for `p` and nothing else changes. */
    function Increase(p: Player): (r: Result<SetCounter>)
      requires Valid()
      ensures r.Ok? ==> IsWonInLastGem(p) == Ok(false)
      ensures r.Ok? ==> r.value.Valid() && r.value.variant == variant && r.value.players == players
      ensures r.Ok? ==> r.value.score.Get(p) == Ok(score.entries[p] + 1)
      ensures r.Ok? ==> forall q :: q != p ==> r.value.score.Get(q) == score.Get(q)
      ensures IsWonInLastGem(p) == Ok(true) ==> r == Err(SetIsFinished)
      ensures IsWonInLastGem(p) == Ok(false) ==> r.Ok?
    {
      var won :- IsWonInLastGem(p);
      if won then Err(SetIsFinished)
      else Ok(this.(score := score.Update(p, score.entries[p] + 1).value))
    }

    /** Six games all in a set decided by a tiebreak: only a tiebreak set
        asks for one, and only while neither player has taken the set. */
    function NeedsTiebreak(): (r: bool)
      requires Valid()
      ensures r ==> variant == TiebreakSet
      ensures r && players.Distinct() ==>
        IsWonInLastGem(players.player1) == Ok(false) && IsWonInLastGem(players.player2) == Ok(false)
    {
      match variant
      case AdvantageSet => false
      case TiebreakSet => score.entries[players.player1] == 6 && score.entries[players.player2] == 6
      case SuperTiebreakSet => false
    }

    /** Six games all in a set decided by a super tiebreak: only a
        super-tiebreak set asks for one, and only while neither player has
        taken the set. */
    function NeedsSuperTiebreak(): (r: bool)
      requires Valid()
      ensures r ==> variant == SuperTiebreakSet
      ensures r && players.Distinct() ==>
        IsWonInLastGem(players.player1) == Ok(false) && IsWonInLastGem(players.player2) == Ok(false)
    {
      match variant
      case AdvantageSet => false
      case TiebreakSet => false
      case SuperTiebreakSet => score.entries[players.player1] == 6 && score.entries[players.player2] == 6
    }
  }

  /** `TennisSetScoreCounter.of`: every set but the last is played with a
      tiebreak; the last follows the final-set tie resolution. */
  function NewSetCounter(players: Players, resolution: TieResolutionType, lastSet: bool): (c: SetCounter)
    ensures c.Valid() && c.players == players
    ensures forall p :: players.Has(p) ==> c.score.Get(p) == Ok(0)
  {
    OfIsWellFormed(players.player1, 0, players.player2, 0);
    var variant :=
      if !lastSet then TiebreakSet
      else match resolution
        case ResolveByAdvantage => AdvantageSet
        case ResolveBySuperTiebreak => SuperTiebreakSet
        case ResolveByTiebreak => TiebreakSet;
    SetCounter(variant, players, Fresh(players, 0))
  }

  /** Games `a` for player one and `b` for player two. */
  function SetAt(variant: SetVariant, players: Players, a: int, b: int): SetCounter {
    SetCounter(variant, players, Of(players.player1, a, players.player2, b))
  }

  /** Which rule a set is played under: a tiebreak set unless it is the last
      one, when the final-set resolution decides. */
  lemma VariantChoice(players: Players, resolution: TieResolutionType, lastSet: bool)
    ensures !lastSet ==> NewSetCounter(players, resolution, lastSet).variant == TiebreakSet
    ensures lastSet ==> (NewSetCounter(players, resolution, lastSet).variant == AdvantageSet <==> resolution == ResolveByAdvantage)
    ensures lastSet ==> (NewSetCounter(players, resolution, lastSet).variant == SuperTiebreakSet <==> resolution == ResolveBySuperTiebreak)
  {
  }

  /** A point to a player who has already taken the set is refused. */
  lemma IncreaseAfterWinFails(c: SetCounter, p: Player)
    requires c.Valid() && c.IsWonInLastGem(p) == Ok(true)
    ensures c.Increase(p) == Err(SetIsFinished)
  {
  }

  /** Advantage set: six games and two clear, with no ceiling (twelve-ten is
      won, seven-six is not), and never a tiebreak of either kind. */
  lemma AdvantageSetRule(players: Players, a: int, b: int)
    requires players.Distinct()
    ensures SetAt(AdvantageSet, players, a, b).Valid()
    ensures SetAt(AdvantageSet, players, a, b).IsWonInLastGem(players.player1) == Ok(a >= 6 && a - b >= 2)
    ensures !SetAt(AdvantageSet, players, a, b).NeedsTiebreak() && !SetAt(AdvantageSet, players, a, b).NeedsSuperTiebreak()
    ensures SetAt(AdvantageSet, players, 12, 10).IsWonInLastGem(players.player1) == Ok(true)
    ensures SetAt(AdvantageSet, players, 7, 6).IsWonInLastGem(players.player1) == Ok(false)
  {
    OfIsWellFormed(players.player1, a, players.player2, b);
    OtherOfTwoPlayers(players.player1, a, players.player2, b);
    OfIsWellFormed(players.player1, 12, players.player2, 10);
    OtherOfTwoPlayers(players.player1, 12, players.player2, 10);
    OfIsWellFormed(players.player1, 7, players.player2, 6);
    OtherOfTwoPlayers(players.player1, 7, players.player2, 6);
  }

  /** Tiebreak and super-tiebreak sets: won at six with two clear or at seven;
      the tiebreak set needs its tiebreak, the super-tiebreak set its super
      tiebreak, exactly at six all. */
  lemma TiebreakSetRule(variant: SetVariant, players: Players, a: int, b: int)
    requires variant != AdvantageSet && players.Distinct()
    ensures SetAt(variant, players, a, b).Valid()
    ensures SetAt(variant, players, a, b).IsWonInLastGem(players.player1) == Ok((a == 6 && a - b >= 2) || a == 7)
    ensures SetAt(variant, players, a, b).NeedsTiebreak() <==> variant == TiebreakSet && a == 6 && b == 6
    ensures SetAt(variant, players, a, b).NeedsSuperTiebreak() <==> variant == SuperTiebreakSet && a == 6 && b == 6
  {
    OfIsWellFormed(players.player1, a, players.player2, b);
    OtherOfTwoPlayers(players.player1, a, players.player2, b);
  }

  /** No set ever needs a tiebreak and a super tiebreak at once. */
  lemma NeverBothTiebreaks(c: SetCounter)
    requires c.Valid()
    ensures !(c.NeedsTiebreak() && c.NeedsSuperTiebreak())
  {
  }

  /** At six all in a tiebreak or super-tiebreak set nobody has won, the
      matching tiebreak is due, and the one extra game that tiebreak awards
      takes the set seven-six. */
  lemma {:induction false} SixAllGoesToSevenSix(variant: SetVariant, players: Players, p: Player)
    requires variant != AdvantageSet && players.Distinct() && players.Has(p)
    ensures var c := SetAt(variant, players, 6, 6);
      && c.Valid()
      && c.IsWonInLastGem(p) == Ok(false)
      && (c.NeedsTiebreak() || c.NeedsSuperTiebreak())
      && c.Increase(p).Ok?
      && c.Increase(p).value.score.Get(p) == Ok(7)
      && c.Increase(p).value.score.Get(players.Opponent(p)) == Ok(6)
      && c.Increase(p).value.IsWonInLastGem(p) == Ok(true)
  {
    var c := SetAt(variant, players, 6, 6);
    OfIsWellFormed(players.player1, 6, players.player2, 6);
    OtherOfTwoPlayers(players.player1, 6, players.player2, 6);
    var d := c.Increase(p).value;
    KeyedByTwoIsWellFormed(d.score, players.player1, players.player2);
    assert d.score.entries[p] == 7;
    assert d.score.entries[players.Opponent(p)] == 6;
    assert d.score.entries.Keys != {p};
    assert d.score.Other(p) == Ok(6);
  }

  /** Whenever either tiebreak is due, the one game it awards takes the set
      for whichever player wins it. */
  lemma TiebreakGameDecidesSet(c: SetCounter, p: Player)
    requires c.Valid() && c.players.Distinct() && c.players.Has(p)
    requires c.NeedsTiebreak() || c.NeedsSuperTiebreak()
    ensures c.Increase(p).Ok? && c.Increase(p).value.IsWonInLastGem(p) == Ok(true)
  {
    PairAsOf(c.score, c.players.player1, c.players.player2);
    assert c == SetAt(c.variant, c.players, 6, 6);
    SixAllGoesToSevenSix(c.variant, c.players, p);
  }

  /** The set test TennisMatch.java applies after an ordinary game (six or
      more games and two clear) agrees with every variant's rule on the
      scores ordinary games reach: neither player has taken the set, and in a
      tiebreak or super-tiebreak set both are at six or below but not at six
      all. */
  lemma GameSetTestAgreesWithVariant(variant: SetVariant, players: Players, p: Player, own: int, other: int)
    requires players.Distinct() && players.Has(p) && own >= 0 && other >= 0
    requires !(own >= 6 && own - other >= 2) && !(other >= 6 && other - own >= 2)
    requires variant != AdvantageSet ==> own <= 6 && other <= 6 && !(own == 6 && other == 6)
    ensures var c := SetCounter(variant, players, Of(p, own, players.Opponent(p), other));
      && c.Valid()
      && c.Increase(p).Ok?
      && c.Increase(p).value.IsWonInLastGem(p) == Ok(own + 1 >= 6 && own + 1 - other >= 2)
  {
    var q := players.Opponent(p);
    var c := SetCounter(variant, players, Of(p, own, q, other));
    VerdictOnPair(variant, players, p, own, other);
    UpdateOfFirst(p, own, q, other, own + 1);
    var d := SetCounter(variant, players, Of(p, own + 1, q, other));
    assert c.Increase(p) == Ok(d);
    VerdictOnPair(variant, players, p, own + 1, other);
  }

  /** The set counter's verdict on a set standing at `own` games to
      `other`, read off the variant's rule. */
  lemma VerdictOnPair(variant: SetVariant, players: Players, p: Player, own: int, other: int)
    requires players.Distinct() && players.Has(p)
    ensures var c := SetCounter(variant, players, Of(p, own, players.Opponent(p), other));
      && c.Valid()
      && c.IsWonInLastGem(p) == Ok(if variant == AdvantageSet then own >= 6 && own - other >= 2
                                   else (own == 6 && own - other >= 2) || own == 7)
  {
    var q := players.Opponent(p);
    var c := SetCounter(variant, players, Of(p, own, q, other));
    OfIsWellFormed(p, own, q, other);
    OtherOfTwoPlayers(p, own, q, other);
    assert c.score.Get(p) == Ok(own) && c.score.Other(p) == Ok(other);
  }
}
