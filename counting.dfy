/** calculate_count: how many pokemon hide in the up-to-eight cells around a
    position, together with an independent definition of that number as the
    size of a set of neighbouring positions. */
module Counting {
  import opened Geometry

  /** The local helper is_poke of calculate_count: an on-board position
      whose index is in the placement. */
  predicate IsPoke(n: int, pokemon: seq<int>, x: int, y: int)
    ensures IsPoke(n, pokemon, x, y) ==> n > 0 && PositionToIndex(n, x, y) in pokemon
  {
    IsOnBoard(n, x, y) && PositionToIndex(n, x, y) in pokemon
  }

  function Bit(b: bool): nat
  {
    if b then 1 else 0
  }

  /** calculate_count. The source asserts that the position itself is not a
      pokemon; that assertion is the precondition. The eight tests are made
      in the source's order. */
  function CalculateCount(n: int, pokemon: seq<int>, x: int, y: int): (c: nat)
    requires PositionToIndex(n, x, y) !in pokemon
    ensures c <= 8
  {
    Bit(IsPoke(n, pokemon, x - 1, y - 1)) + Bit(IsPoke(n, pokemon, x, y - 1))
    + Bit(IsPoke(n, pokemon, x + 1, y - 1)) + Bit(IsPoke(n, pokemon, x + 1, y))
    + Bit(IsPoke(n, pokemon, x - 1, y)) + Bit(IsPoke(n, pokemon, x, y + 1))
    + Bit(IsPoke(n, pokemon, x - 1, y + 1)) + Bit(IsPoke(n, pokemon, x + 1, y + 1))
  }

  /** A count of zero means no pokemon in the three-by-three square
      around (x, y), and conversely. */
  lemma CountZeroIff(n: int, pokemon: seq<int>, x: int, y: int)
    requires PositionToIndex(n, x, y) !in pokemon
    ensures CalculateCount(n, pokemon, x, y) == 0 <==>
              forall a, b | x - 1 <= a <= x + 1 && y - 1 <= b <= y + 1 :: !IsPoke(n, pokemon, a, b)
  {
    if CalculateCount(n, pokemon, x, y) == 0 {
      forall a, b | x - 1 <= a <= x + 1 && y - 1 <= b <= y + 1 ensures !IsPoke(n, pokemon, a, b) {
        if a == x && b == y {
          assert !IsPoke(n, pokemon, a, b);
        }
      }
    }
  }

  /** The on-board king-move neighbours of (x, y) that hold a pokemon. */
  ghost function PokemonAround(n: int, pokemon: seq<int>, x: int, y: int): set<(int, int)>
  {
    set a, b | x - 1 <= a <= x + 1 && y - 1 <= b <= y + 1 && (a != x || b != y) && IsPoke(n, pokemon, a, b) :: (a, b)
  }

  function Hits(n: int, pokemon: seq<int>, ps: seq<(int, int)>): nat
  {
    if ps == [] then 0 else Bit(IsPoke(n, pokemon, ps[0].0, ps[0].1)) + Hits(n, pokemon, ps[1..])
  }

  /** Counting the pokemon along a list of distinct positions gives the size
      of the set of those positions that hold one. */
  lemma {:induction false} HitsIsCardinality(n: int, pokemon: seq<int>, ps: seq<(int, int)>)
    requires forall i, j | 0 <= i < j < |ps| :: ps[i] != ps[j]
    ensures Hits(n, pokemon, ps) == |set p | p in ps && IsPoke(n, pokemon, p.0, p.1)|
  {
    if ps != [] {
      var rest := ps[1..];
      HitsIsCardinality(n, pokemon, rest);
      var tail := set p | p in rest && IsPoke(n, pokemon, p.0, p.1);
      var all := set p | p in ps && IsPoke(n, pokemon, p.0, p.1);
      assert ps[0] !in rest by {
        forall k | 0 <= k < |rest| ensures rest[k] != ps[0] {
          assert rest[k] == ps[k + 1];
        }
      }
      if IsPoke(n, pokemon, ps[0].0, ps[0].1) {
        assert all == tail + {ps[0]};
      } else {
        assert all == tail;
      }
    }
  }

  function Around(x: int, y: int): seq<(int, int)>
  {
    [(x - 1, y - 1), (x, y - 1), (x + 1, y - 1), (x + 1, y),
     (x - 1, y), (x, y + 1), (x - 1, y + 1), (x + 1, y + 1)]
  }

  lemma AroundIsNeighbourhood(n: int, pokemon: seq<int>, x: int, y: int)
    ensures PokemonAround(n, pokemon, x, y) == set p | p in Around(x, y) && IsPoke(n, pokemon, p.0, p.1)
  {
    var ps := Around(x, y);
    var lhs := PokemonAround(n, pokemon, x, y);
    var rhs := set p | p in ps && IsPoke(n, pokemon, p.0, p.1);
    forall p | p in lhs ensures p in rhs {
      var a, b := p.0, p.1;
      assert x - 1 <= a <= x + 1 && y - 1 <= b <= y + 1 && (a != x || b != y);
      if a == x - 1 && b == y - 1 { assert p == ps[0]; }
      else if a == x && b == y - 1 { assert p == ps[1]; }
      else if a == x + 1 && b == y - 1 { assert p == ps[2]; }
      else if a == x + 1 && b == y { assert p == ps[3]; }
      else if a == x - 1 && b == y { assert p == ps[4]; }
      else if a == x && b == y + 1 { assert p == ps[5]; }
      else if a == x - 1 && b == y + 1 { assert p == ps[6]; }
      else { assert p == ps[7]; }
    }
    forall p | p in rhs ensures p in lhs {
      assert x - 1 <= p.0 <= x + 1 && y - 1 <= p.1 <= y + 1 && (p.0 != x || p.1 != y);
    }
  }

  lemma HitsAround(n: int, pokemon: seq<int>, x: int, y: int)
    requires PositionToIndex(n, x, y) !in pokemon
    ensures Hits(n, pokemon, Around(x, y)) == CalculateCount(n, pokemon, x, y)
  {
    var ps := Around(x, y);
    assert Hits(n, pokemon, ps[7..]) == Bit(IsPoke(n, pokemon, x + 1, y + 1)) + Hits(n, pokemon, ps[8..]);
    assert Hits(n, pokemon, ps[6..]) == Bit(IsPoke(n, pokemon, x - 1, y + 1)) + Hits(n, pokemon, ps[7..]);
    assert Hits(n, pokemon, ps[5..]) == Bit(IsPoke(n, pokemon, x, y + 1)) + Hits(n, pokemon, ps[6..]);
    assert Hits(n, pokemon, ps[4..]) == Bit(IsPoke(n, pokemon, x - 1, y)) + Hits(n, pokemon, ps[5..]);
    assert Hits(n, pokemon, ps[3..]) == Bit(IsPoke(n, pokemon, x + 1, y)) + Hits(n, pokemon, ps[4..]);
    assert Hits(n, pokemon, ps[2..]) == Bit(IsPoke(n, pokemon, x + 1, y - 1)) + Hits(n, pokemon, ps[3..]);
    assert Hits(n, pokemon, ps[1..]) == Bit(IsPoke(n, pokemon, x, y - 1)) + Hits(n, pokemon, ps[2..]);
  }

  /** calculate_count equals the number of on-board neighbours (of the eight)
      whose index is in the placement. */
  lemma CountIsPokemonAround(n: int, pokemon: seq<int>, x: int, y: int)
    requires PositionToIndex(n, x, y) !in pokemon
    ensures CalculateCount(n, pokemon, x, y) == |PokemonAround(n, pokemon, x, y)|
  {
    HitsIsCardinality(n, pokemon, Around(x, y));
    AroundIsNeighbourhood(n, pokemon, x, y);
    HitsAround(n, pokemon, x, y);
  }
}
