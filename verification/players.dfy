/** Player identities (Player.java) and the pair of players of a match
    (Players.java). */
module Players {

  /** One named player. */
  datatype SinglesPlayer = SinglesPlayer(name: string)

  /** A side of the match: one player, or a doubles team of two players
      kept in the order they were given. */
  datatype Player =
    | Singles(singles: SinglesPlayer)
    | Doubles(first: SinglesPlayer, second: SinglesPlayer)

  /** Factory `Player.singlesPlayer(name)`. */
  function SinglesPlayerNamed(name: string): Player {
    Singles(SinglesPlayer(name))
  }

  /** Factory `Player.doublesPlayer(name1, name2)`: a team built from the two
      singles players of those names. */
  function DoublesPlayerNamed(name1: string, name2: string): Player {
    Doubles(SinglesPlayerNamed(name1).singles, SinglesPlayerNamed(name2).singles)
  }

  /** `SinglesPlayer.equals`: same class and same name. */
  predicate SameSingles(a: SinglesPlayer, b: SinglesPlayer) {
    a.name == b.name
  }

  /** `equals` of the two player classes: the class check first, then the
      fields, members of a team compared position by position. */
  predicate SamePlayer(a: Player, b: Player) {
    match (a, b)
    case (Singles(x), Singles(y)) => SameSingles(x, y)
    case (Doubles(x1, x2), Doubles(y1, y2)) => SameSingles(x1, y1) && SameSingles(x2, y2)
    case _ => false
  }

  /** The source's equality is the structural equality of the model, so the
      rest of the model compares players with `==`. */
  lemma SamePlayerIsEquality(a: Player, b: Player)
    ensures SamePlayer(a, b) <==> a == b
  {
  }

  /** Two singles players are equal exactly when their names are. */
  lemma SinglesEqualIffSameName(name1: string, name2: string)
    ensures SamePlayer(SinglesPlayerNamed(name1), SinglesPlayerNamed(name2)) <==> name1 == name2
  {
  }

  /** Two teams are equal exactly when their members are equal in order;
      swapping two different members gives a different team. */
  lemma DoublesEqualIffSameMembersInOrder(a: string, b: string, c: string, d: string)
    ensures SamePlayer(DoublesPlayerNamed(a, b), DoublesPlayerNamed(c, d)) <==> a == c && b == d
    ensures a != b ==> !SamePlayer(DoublesPlayerNamed(a, b), DoublesPlayerNamed(b, a))
  {
  }

  /** A singles player never equals a team, whatever the names. */
  lemma SinglesNeverEqualsDoubles(name: string, a: string, b: string)
    ensures !SamePlayer(SinglesPlayerNamed(name), DoublesPlayerNamed(a, b))
    ensures !SamePlayer(DoublesPlayerNamed(a, b), SinglesPlayerNamed(name))
  {
  }

  /** A team's members are the singles players of the given names. */
  lemma DoublesBuiltFromSingles(a: string, b: string)
    ensures SamePlayer(Singles(DoublesPlayerNamed(a, b).first), SinglesPlayerNamed(a))
    ensures SamePlayer(Singles(DoublesPlayerNamed(a, b).second), SinglesPlayerNamed(b))
  {
  }

  /** The two sides of a match, in the order they were registered. */
  datatype Players = Players(player1: Player, player2: Player) {

    predicate Distinct() {
      player1 != player2
    }

    predicate Has(p: Player) {
      p == player1 || p == player2
    }

    /** The source's `p.equals(player1) ? player2 : player1`: the opponent of
        a registered player, and `player1` for anybody else. */
    function Opponent(p: Player): (q: Player)
      ensures Has(q)
      ensures Distinct() && Has(p) ==> q != p && (q == player1 || p == player1)
      ensures !Has(p) ==> q == player1
    {
      if p == player1 then player2 else player1
    }
  }
}
