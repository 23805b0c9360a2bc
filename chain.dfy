/** The snake: the row of placed tiles, its two open ends, and attaching a
    tile at either end in the orientation that makes it touch. */
module Chain {
  import opened Tiles

  /** `snake[0][0]`: the value open on the left. */
  function LeftEnd(snake: seq<Tile>): Pip
    requires |snake| > 0
  {
    snake[0].first
  }

  /** `snake[-1][1]`: the value open on the right. */
  function RightEnd(snake: seq<Tile>): Pip
    requires |snake| > 0
  {
    snake[|snake| - 1].second
  }

  /** Neighbouring tiles touch with equal values. */
  predicate Chained(snake: seq<Tile>) {
    forall i :: 0 <= i < |snake| - 1 ==> snake[i].second == snake[i + 1].first
  }

  /** The opening snake, a single tile or none, is chained. */
  lemma ShortIsChained(snake: seq<Tile>)
    requires |snake| <= 1
    ensures Chained(snake)
  {
  }

  /** The tile turned so that its second half shows `v`, ready to go on the
      left of a chain whose left end is `v`; it is reversed only when needed. */
  function FacingLeftEnd(t: Tile, v: Pip): (r: Tile)
    requires t.Has(v)
    ensures r.second == v
    ensures multiset{r.first, r.second} == multiset{t.first, t.second}
    ensures r.Norm() == t.Norm()
    ensures t.second == v ==> r == t
  {
    if t.second == v then t else t.Reversed()
  }

  /** The tile turned so that its first half shows `v`, ready to go on the
      right of a chain whose right end is `v`; it is reversed only when needed. */
  function FacingRightEnd(t: Tile, v: Pip): (r: Tile)
    requires t.Has(v)
    ensures r.first == v
    ensures multiset{r.first, r.second} == multiset{t.first, t.second}
    ensures r.Norm() == t.Norm()
    ensures t.first == v ==> r == t
  {
    if t.first == v then t else t.Reversed()
  }

  /** Turning an already turned tile again changes nothing. */
  lemma FacingIsIdempotent(t: Tile, v: Pip)
    requires t.Has(v)
    ensures FacingLeftEnd(FacingLeftEnd(t, v), v) == FacingLeftEnd(t, v)
    ensures FacingRightEnd(FacingRightEnd(t, v), v) == FacingRightEnd(t, v)
  {
  }

  /** `snake.insert(0, tile)` with the tile turned against the left end. */
  function Prepend(snake: seq<Tile>, t: Tile): (r: seq<Tile>)
    requires |snake| > 0 && t.Has(LeftEnd(snake))
    ensures |r| == |snake| + 1 && r[1..] == snake
    ensures r[0].second == LeftEnd(snake) && r[0].Norm() == t.Norm()
    ensures RightEnd(r) == RightEnd(snake)
    ensures Chained(snake) ==> Chained(r)
    ensures Bag(r) == Bag(snake) + multiset{t.Norm()}
  {
    var tile := FacingLeftEnd(t, LeftEnd(snake));
    assert ([tile] + snake)[1..] == snake;
    [tile] + snake
  }

  /** `snake.append(tile)` with the tile turned against the right end. */
  function Append(snake: seq<Tile>, t: Tile): (r: seq<Tile>)
    requires |snake| > 0 && t.Has(RightEnd(snake))
    ensures |r| == |snake| + 1 && r[..|snake|] == snake
    ensures r[|snake|].first == RightEnd(snake) && r[|snake|].Norm() == t.Norm()
    ensures LeftEnd(r) == LeftEnd(snake)
    ensures Chained(snake) ==> Chained(r)
    ensures Bag(r) == Bag(snake) + multiset{t.Norm()}
  {
    var tile := FacingRightEnd(t, RightEnd(snake));
    BagConcat(snake, [tile]);
    assert Bag([tile]) == multiset{t.Norm()} by {
      assert [tile][1..] == [];
    }
    snake + [tile]
  }
}
