/** Points within a game (the `GemPoint` enum) and the earlier, mutable
    game score of GemScore.java. */
module GemPoints {
  import opened Base
  import opened Players
  import opened Scores

  /** The calls of a game score in enum order. `Gem` marks a won game and
      follows `Advantage`, as the counters' successor step needs. */
  datatype GemPoint = Zero | Fifteen | Thirty | Fourty | Advantage | Gem

  /** `ordinal()`: the position in the enum. */
  function Ordinal(p: GemPoint): (n: nat)
    ensures n < 6
  {
    match p
    case Zero => 0
    case Fifteen => 1
    case Thirty => 2
    case Fourty => 3
    case Advantage => 4
    case Gem => 5
  }

  /** `values()[n]`: the point at a position, absent when the index is out
      of the array's bounds. */
  function FromOrdinal(n: int): (r: Option<GemPoint>)
    ensures r.Some? <==> 0 <= n < 6
    ensures r.Some? ==> Ordinal(r.value) == n
  {
    if n == 0 then Some(Zero)
    else if n == 1 then Some(Fifteen)
    else if n == 2 then Some(Thirty)
    else if n == 3 then Some(Fourty)
    else if n == 4 then Some(Advantage)
    else if n == 5 then Some(Gem)
    else None
  }

  /** `values()[p.ordinal() + 1]`: the next call, absent after `Gem`. */
  function Next(p: GemPoint): Option<GemPoint> {
    FromOrdinal(Ordinal(p) + 1)
  }

  /** `a.compareTo(b) < 0`: enum order. */
  predicate Below(a: GemPoint, b: GemPoint) {
    Ordinal(a) < Ordinal(b)
  }

  /** Ordinals name points uniquely and index back to them. */
  lemma OrdinalRoundTrip(p: GemPoint, q: GemPoint)
    ensures FromOrdinal(Ordinal(p)) == Some(p)
    ensures Ordinal(p) == Ordinal(q) ==> p == q
  {
  }

  /** The enum order is a strict total order running
      Zero < Fifteen < Thirty < Fourty < Advantage < Gem, and `Next` steps
      along it one place at a time. */
  lemma PointOrder(a: GemPoint, b: GemPoint, c: GemPoint)
    ensures !Below(a, a)
    ensures Below(a, b) && Below(b, c) ==> Below(a, c)
    ensures a != b ==> Below(a, b) || Below(b, a)
    ensures Below(Zero, Fifteen) && Below(Fifteen, Thirty) && Below(Thirty, Fourty)
    ensures Below(Fourty, Advantage) && Below(Advantage, Gem)
    ensures Next(a).Some? <==> a != Gem
    ensures Next(a).Some? ==> Below(a, Next(a).value) && !(Below(a, b) && Below(b, Next(a).value))
  {
    OrdinalRoundTrip(a, b);
  }

  /** GemScore.java's two-player constructor: both players at `Zero`. */
  function NewGemScore(player1: Player, player2: Player): Score<GemPoint> {
    Of(player1, Zero, player2, Zero)
  }

  /** `scoreOf`: a plain map read, with no membership check of its own. */
  function ScoreOf(s: Score<GemPoint>, p: Player): GemPoint
    requires p in s.entries
  {
    s.entries[p]
  }

  /** `setScore`: a plain map write. */
  function SetScore(s: Score<GemPoint>, p: Player, v: GemPoint): Score<GemPoint> {
    s.Put(p, v)
  }

  /** A new game score holds exactly the two players, both at `Zero`. */
  lemma NewGemScoreStartsAtZero(player1: Player, player2: Player, p: Player)
    ensures NewGemScore(player1, player2).entries.Keys == {player1, player2}
    ensures p in NewGemScore(player1, player2).entries ==> ScoreOf(NewGemScore(player1, player2), p) == Zero
  {
    OfIsWellFormed(player1, Zero, player2, Zero);
  }

  /** `scoreOf` after `setScore` reads the stored value back, any other
      player keeps theirs, and an unknown player becomes a new key. */
  lemma SetScoreThenScoreOf(s: Score<GemPoint>, p: Player, v: GemPoint, q: Player)
    ensures p in SetScore(s, p, v).entries && ScoreOf(SetScore(s, p, v), p) == v
    ensures q != p && q in s.entries ==> q in SetScore(s, p, v).entries && ScoreOf(SetScore(s, p, v), q) == ScoreOf(s, q)
    ensures SetScore(s, p, v).entries.Keys == s.entries.Keys + {p}
  {
  }
}
