/** The immutable score pair of Score.java: a map from the two players to a
    value of some scoring unit. */
module Scores {
  import opened Base
  import opened Players

  /** A score: one entry per player. Dafny's `==` on it is the map equality
      the source's `equals` uses. */
  datatype Score<T> = Score(entries: map<Player, T>) {

    /** What every constructor of the source establishes: one or two
        entries (two when the players differ). */
    predicate WellFormed() {
      1 <= |entries| <= 2
    }

    /** `getScore`: the player's value, or a failure for a player who is not
        a key. */
    function Get(p: Player): (r: Result<T>)
      ensures r.Ok? <==> p in entries
      ensures r.Err? ==> r.error == NoSuchPlayer
      ensures r.Ok? ==> r.value == entries[p]
    {
      if p in entries then Ok(entries[p]) else Err(NoSuchPlayer)
    }

    /** `withUpdatedScore`: a copy in which `p` holds `v`; the receiver is a
        value and so unchanged. Fails for a player who is not a key. */
    function Update(p: Player, v: T): (r: Result<Score<T>>)
      ensures r.Ok? <==> p in entries
      ensures r.Err? ==> r.error == NoSuchPlayer
      ensures r.Ok? ==> r.value.entries.Keys == entries.Keys && r.value.Get(p) == Ok(v)
      ensures r.Ok? ==> forall q :: q != p ==> r.value.Get(q) == Get(q)
    {
      if p in entries then Ok(Score(entries[p := v])) else Err(NoSuchPlayer)
    }

    /** `getOtherPlayerScore`: the value of the one key that is not `p`.
        Fails for an unknown `p`, and when `p` is the only key (the source's
        iterator then has no next element). */
    function Other(p: Player): (r: Result<T>)
      requires WellFormed()
      ensures r.Ok? <==> p in entries && entries.Keys != {p}
      ensures r.Ok? ==> exists q :: q in entries && q != p && r.value == entries[q]
    {
      if p !in entries then Err(NoSuchPlayer)
      else if entries.Keys == {p} then Err(NoOtherPlayer)
      else
        OtherKeyIsUnique(entries, p);
        var q :| q in entries && q != p;
        Ok(entries[q])
    }

    /** `setScore` of the earlier, mutable revision of the score map (used by
        TennisMatch.java and GemScore.java): stores the value with no
        membership check. */
    function Put(p: Player, v: T): Score<T> {
      Score(entries[p := v])
    }
  }

  /** Constructor `Score(player1, value1, player2, value2)`: two puts into an
      empty map, so a repeated player keeps the second value. */
  function Of<T>(p1: Player, v1: T, p2: Player, v2: T): Score<T> {
    Score(map[p1 := v1][p2 := v2])
  }

  /** Constructor `Score(players, zero)`: both players start at `zero`. */
  function Fresh<T>(players: Players, zero: T): Score<T> {
    Of(players.player1, zero, players.player2, zero)
  }

  /** Every score built by the two-player constructor is well formed and
      keyed by exactly the players it was given. */
  lemma OfIsWellFormed<T>(p1: Player, v1: T, p2: Player, v2: T)
    ensures Of(p1, v1, p2, v2).entries.Keys == {p1, p2}
    ensures Of(p1, v1, p2, v2).WellFormed()
  {
    if p1 == p2 {
      assert Of(p1, v1, p2, v2).entries.Keys == {p1};
    }
  }

  /** A score keyed by two distinct players is the pair built from their
      values. */
  lemma PairAsOf<T>(s: Score<T>, p: Player, q: Player)
    requires s.entries.Keys == {p, q} && p != q
    ensures s == Of(p, s.entries[p], q, s.entries[q])
  {
    assert s.entries == Of(p, s.entries[p], q, s.entries[q]).entries;
  }

  /** Updating the first of two distinct players rebuilds the same pair
      with the new value. */
  lemma UpdateOfFirst<T>(p1: Player, v1: T, p2: Player, v2: T, v: T)
    requires p1 != p2
    ensures Of(p1, v1, p2, v2).Update(p1, v) == Ok(Of(p1, v, p2, v2))
  {
    assert Of(p1, v1, p2, v2).entries[p1 := v] == Of(p1, v, p2, v2).entries;
  }

  /** A score keyed by exactly two given players is well formed. */
  lemma KeyedByTwoIsWellFormed<T>(s: Score<T>, p1: Player, p2: Player)
    requires s.entries.Keys == {p1, p2}
    ensures s.WellFormed()
  {
    if p1 == p2 {
      assert s.entries.Keys == {p1};
    }
  }

  /** A map with at most two keys has at most one key besides a given one. */
  lemma OtherKeyIsUnique<T>(m: map<Player, T>, p: Player)
    requires |m| <= 2 && p in m && m.Keys != {p}
    ensures exists q :: q in m && q != p
    ensures forall q, q' :: q in m && q != p && q' in m && q' != p ==> q == q'
  {
    forall q, q' | q in m && q != p && q' in m && q' != p
      ensures q == q'
    {
      if q != q' {
        assert |{p, q, q'}| == 3;
        SubsetCardinality({p, q, q'}, m.Keys);
      }
    }
  }

  /** Update round trip: the updated player reads back the new value, every
      other key keeps its value, and the key set (so well-formedness) is
      unchanged. */
  lemma UpdateThenGet<T>(s: Score<T>, p: Player, v: T, q: Player)
    requires p in s.entries
    ensures s.Update(p, v).Ok?
    ensures s.Update(p, v).value.Get(p) == Ok(v)
    ensures q != p ==> s.Update(p, v).value.Get(q) == s.Get(q)
    ensures s.Update(p, v).value.entries.Keys == s.entries.Keys
  {
  }

  /** Updating a player who is not a key fails and builds nothing. */
  lemma UpdateUnknownFails<T>(s: Score<T>, p: Player, v: T)
    requires p !in s.entries
    ensures s.Update(p, v) == Err(NoSuchPlayer)
    ensures s.Get(p) == Err(NoSuchPlayer)
  {
  }

  /** Two distinct players: each one's "other" value is the opponent's. */
  lemma OtherOfTwoPlayers<T>(p1: Player, v1: T, p2: Player, v2: T)
    requires p1 != p2
    ensures Of(p1, v1, p2, v2).WellFormed()
    ensures Of(p1, v1, p2, v2).Other(p1) == Ok(v2)
    ensures Of(p1, v1, p2, v2).Other(p2) == Ok(v1)
  {
    var s := Of(p1, v1, p2, v2);
    assert s.entries.Keys == {p1, p2};
    assert s.entries.Keys != {p1} && s.entries.Keys != {p2};
  }

  /** With one player given twice the map has a single entry holding the
      second value, and the "other" lookup has nothing to return. */
  lemma OfSamePlayerTwice<T>(p: Player, v1: T, v2: T)
    ensures Of(p, v1, p, v2) == Score(map[p := v2])
    ensures Of(p, v1, p, v2).WellFormed()
    ensures Of(p, v1, p, v2).Other(p) == Err(NoOtherPlayer)
  {
    assert Of(p, v1, p, v2).entries.Keys == {p};
  }

  /** The Players-based constructor gives both registered players the same
      initial value and no one else an entry. */
  lemma FreshGivesBothZero<T>(players: Players, zero: T, p: Player)
    ensures Fresh(players, zero).entries.Keys == {players.player1, players.player2}
    ensures Fresh(players, zero).WellFormed()
    ensures Fresh(players, zero).Get(p) == (if players.Has(p) then Ok(zero) else Err(NoSuchPlayer))
  {
    var keys := Fresh(players, zero).entries.Keys;
    assert keys == {players.player1, players.player2};
    if players.player1 == players.player2 {
      assert keys == {players.player1};
    }
  }

  /** Equality is structural: two scores are equal exactly when every
      lookup agrees. */
  lemma EqualityIsPointwise<T>(a: Score<T>, b: Score<T>)
    ensures a == b <==> forall p :: a.Get(p) == b.Get(p)
  {
    if forall p :: a.Get(p) == b.Get(p) {
      assert forall p :: p in a.entries <==> p in b.entries by {
        forall p ensures p in a.entries <==> p in b.entries {
          assert a.Get(p).Ok? == b.Get(p).Ok?;
        }
      }
      assert a.entries.Keys == b.entries.Keys;
      forall p | p in a.entries ensures a.entries[p] == b.entries[p] {
        assert a.Get(p) == b.Get(p);
      }
      assert a.entries == b.entries;
    }
  }

  /** The order in which two distinct players are given does not matter. */
  lemma OfOrderIrrelevant<T>(p1: Player, v1: T, p2: Player, v2: T)
    requires p1 != p2
    ensures Of(p1, v1, p2, v2) == Of(p2, v2, p1, v1)
  {
    assert Of(p1, v1, p2, v2).entries == Of(p2, v2, p1, v1).entries;
  }

  lemma SubsetCardinality<X>(a: set<X>, b: set<X>)
    requires a <= b
    ensures |a| <= |b|
  {
    assert b == a + (b - a);
  }
}
