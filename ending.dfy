/** The end-of-game check: a win for the side with an empty hand, or a draw
    when the snake is closed on a value all eight of whose halves it shows. */
module Ending {
  import opened Tiles
  import opened Chain
  import opened Game

  /** The running count of `v` over the snake, tile by tile, hits 8 at some point. */
  ghost predicate ReachesEight(snake: seq<Tile>, v: int) {
    exists k :: 0 < k <= |snake| && Occurrences(snake[..k], v) == 8
  }

  /** `check_win`, with `sys.exit` replaced by the returned outcome. The
      snake is read only when both hands still hold tiles. */
  method CheckWin(player: seq<Tile>, computer: seq<Tile>, snake: seq<Tile>) returns (outcome: Outcome)
    requires |player| > 0 && |computer| > 0 ==> |snake| > 0
    ensures outcome == PlayerWon <==> |player| == 0
    ensures outcome == ComputerWon <==> |player| > 0 && |computer| == 0
    ensures outcome == Draw <==>
      |player| > 0 && |computer| > 0 && LeftEnd(snake) == RightEnd(snake) && ReachesEight(snake, LeftEnd(snake))
  {
    if |player| == 0 {
      return PlayerWon;
    } else if |computer| == 0 {
      return ComputerWon;
    } else if LeftEnd(snake) == RightEnd(snake) {
      var v := LeftEnd(snake);
      var counter := 0;
      var i := 0;
      while i < |snake|
        invariant 0 <= i <= |snake|
        invariant counter == Occurrences(snake[..i], v)
        invariant forall k :: 0 < k <= i ==> Occurrences(snake[..k], v) != 8
      {
        assert snake[..i + 1][..i] == snake[..i];
        counter := counter + snake[i].Pips(v);
        i := i + 1;
        if counter == 8 {
          return Draw;
        }
      }
      return Continue;
    } else {
      return Continue;
    }
  }

  /** The count over a prefix never exceeds the count over the whole. */
  lemma OccurrencesPrefix(snake: seq<Tile>, k: nat, v: int)
    requires k <= |snake|
    ensures Occurrences(snake[..k], v) <= Occurrences(snake, v)
  {
    assert snake == snake[..k] + snake[k..];
    OccurrencesConcat(snake[..k], snake[k..], v);
  }

  /** While the count over the whole snake is at most 8, the running count
      reaches 8 exactly when the whole snake shows the value 8 times. */
  lemma ReachesEightIffAll(snake: seq<Tile>, v: int)
    requires Occurrences(snake, v) <= 8
    ensures ReachesEight(snake, v) <==> Occurrences(snake, v) == 8
  {
    if Occurrences(snake, v) == 8 {
      assert snake[..|snake|] == snake;
    }
    if ReachesEight(snake, v) {
      var k :| 0 < k <= |snake| && Occurrences(snake[..k], v) == 8;
      OccurrencesPrefix(snake, k, v);
    }
  }

  /** The four containers together show every value exactly 8 times. */
  lemma ConservedShowsEight(pool: seq<Tile>, player: seq<Tile>, computer: seq<Tile>, snake: seq<Tile>, v: Pip)
    requires Conserved(pool, player, computer, snake)
    ensures Occurrences(pool + player + computer + snake, v) == 8
  {
    var all := pool + player + computer + snake;
    BagIsCanon(all);
    FullSetIsDominos(Bag(all));
    OccurrencesPermutation(Canon(all), Dominos, v);
    OccurrencesCanon(all, v);
    DominosOccurrences(v);
  }

  /** While the set is conserved, the snake shows any value at most 8 times,
      and the rest of the tiles show it the remaining times. */
  lemma SnakeShowsAtMostEight(pool: seq<Tile>, player: seq<Tile>, computer: seq<Tile>, snake: seq<Tile>, v: Pip)
    requires Conserved(pool, player, computer, snake)
    ensures Occurrences(pool + player + computer, v) + Occurrences(snake, v) == 8
    ensures Occurrences(snake, v) <= 8
  {
    ConservedShowsEight(pool, player, computer, snake, v);
    OccurrencesConcat(pool + player + computer, snake, v);
  }

  /** No tile of a sequence shows a value the sequence shows 0 times. */
  lemma {:induction false} NoOccurrencesNoTile(s: seq<Tile>, v: int)
    requires Occurrences(s, v) == 0
    ensures forall i :: 0 <= i < |s| ==> !s[i].Has(v)
  {
    if |s| > 0 {
      NoOccurrencesNoTile(s[..|s| - 1], v);
      forall i | 0 <= i < |s| - 1 ensures !s[i].Has(v) {
        assert s[i] == s[..|s| - 1][i];
      }
    }
  }

  /** The draw rule, in a conserved game: when the snake is closed on a value,
      the running count reaches 8 exactly when the snake shows all 8 halves
      of that value. */
  lemma DrawIsClosedOnEight(pool: seq<Tile>, player: seq<Tile>, computer: seq<Tile>, snake: seq<Tile>)
    requires Conserved(pool, player, computer, snake) && |snake| > 0
    ensures LeftEnd(snake) == RightEnd(snake) ==>
      (ReachesEight(snake, LeftEnd(snake)) <==> Occurrences(snake, LeftEnd(snake)) == 8)
  {
    var v := LeftEnd(snake);
    SnakeShowsAtMostEight(pool, player, computer, snake, v);
    ReachesEightIffAll(snake, v);
  }

  /** A declared draw is a blocked game: no tile outside the snake, in
      either hand or in the pool, touches either end. */
  lemma DrawIsBlocked(pool: seq<Tile>, player: seq<Tile>, computer: seq<Tile>, snake: seq<Tile>)
    requires Conserved(pool, player, computer, snake) && |snake| > 0
    requires LeftEnd(snake) == RightEnd(snake) && ReachesEight(snake, LeftEnd(snake))
    ensures forall i :: 0 <= i < |player| ==> !player[i].Has(LeftEnd(snake))
    ensures forall i :: 0 <= i < |computer| ==> !computer[i].Has(LeftEnd(snake))
    ensures forall i :: 0 <= i < |pool| ==> !pool[i].Has(LeftEnd(snake))
  {
    var v := LeftEnd(snake);
    SnakeShowsAtMostEight(pool, player, computer, snake, v);
    ReachesEightIffAll(snake, v);
    OccurrencesConcat(pool + player, computer, v);
    OccurrencesConcat(pool, player, v);
    NoOccurrencesNoTile(pool, v);
    NoOccurrencesNoTile(player, v);
    NoOccurrencesNoTile(computer, v);
  }
}
