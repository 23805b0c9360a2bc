/** The computer's choice of move: value tallies over its hand and the snake,
    a score per hand tile, the tiles ranked by score, and the first ranked
    tile that touches an open end. */
module Strategy {
  import opened Tiles
  import opened Chain

  /** What the computer does with a tile: put hand tile `i` on the right end,
      on the left end, or nothing fits. */
  datatype Move = PlaceRight(i: nat) | PlaceLeft(i: nat) | NoFit

  /** `number_score`: for each value 0..6, how many halves show it across the
      computer's hand and the snake (a double adds 2). */
  method TallyValues(hand: seq<Tile>, snake: seq<Tile>) returns (tally: seq<nat>)
    ensures |tally| == 7
    ensures forall v :: 0 <= v < 7 ==> tally[v] == Occurrences(hand + snake, v)
  {
    tally := [0, 0, 0, 0, 0, 0, 0];
    var i := 0;
    while i < |hand|
      invariant 0 <= i <= |hand|
      invariant |tally| == 7
      invariant forall v :: 0 <= v < 7 ==> tally[v] == Occurrences(hand[..i], v)
    {
      var domino := hand[i];
      tally := tally[domino.first := tally[domino.first] + 1];
      tally := tally[domino.second := tally[domino.second] + 1];
      assert hand[..i + 1][..i] == hand[..i];
      i := i + 1;
    }
    assert hand[..|hand|] == hand;
    assert hand + snake[..0] == hand;
    i := 0;
    while i < |snake|
      invariant 0 <= i <= |snake|
      invariant |tally| == 7
      invariant forall v :: 0 <= v < 7 ==> tally[v] == Occurrences(hand + snake[..i], v)
    {
      var domino := snake[i];
      tally := tally[domino.first := tally[domino.first] + 1];
      tally := tally[domino.second := tally[domino.second] + 1];
      assert (hand + snake[..i + 1])[..|hand| + i] == hand + snake[..i];
      i := i + 1;
    }
    assert snake[..|snake|] == snake;
  }

  /** `comp_piece_score`: each hand tile scores the tallies of its two values.
      The key is the tile's position in the hand (`index` finds it there
      because a hand never holds the same tile twice). */
  method ScoreTiles(hand: seq<Tile>, tally: seq<nat>) returns (scores: seq<int>)
    requires |tally| == 7
    ensures |scores| == |hand|
    ensures forall i :: 0 <= i < |hand| ==> scores[i] == tally[hand[i].first] + tally[hand[i].second]
  {
    scores := [];
    var i := 0;
    while i < |hand|
      invariant 0 <= i <= |hand|
      invariant |scores| == i
      invariant forall k :: 0 <= k < i ==> scores[k] == tally[hand[k].first] + tally[hand[k].second]
    {
      scores := scores + [tally[hand[i].first] + tally[hand[i].second]];
      i := i + 1;
    }
  }

  /** The score of every hand tile, as the computer computes it. */
  function Scores(hand: seq<Tile>, snake: seq<Tile>): (s: seq<int>)
    ensures |s| == |hand|
  {
    seq(|hand|, i requires 0 <= i < |hand| =>
      Occurrences(hand + snake, hand[i].first) + Occurrences(hand + snake, hand[i].second))
  }

  // ---------------------------------------------------------------------
  // Ranking: sorted by score, highest first, stable for equal scores

  /** Tile `i` is tried before tile `j`: a higher score, or the same score
      and an earlier place in the hand. */
  predicate Before(scores: seq<int>, i: int, j: int) {
    0 <= i < |scores| && 0 <= j < |scores| &&
    (scores[i] > scores[j] || (scores[i] == scores[j] && i < j))
  }

  predicate Sorted(scores: seq<int>, r: seq<nat>) {
    forall p, q :: 0 <= p < q < |r| ==> Before(scores, r[p], r[q])
  }

  /** Insert index `i` after every index whose score is at least its own. */
  function Insert(r: seq<nat>, i: nat, scores: seq<int>): (r': seq<nat>)
    requires i < |scores| && forall k :: 0 <= k < |r| ==> r[k] < |scores|
    ensures |r'| == |r| + 1
    ensures forall x :: x in r' <==> x in r || x == i
  {
    if r == [] then [i]
    else if scores[r[0]] < scores[i] then [i] + r
    else
      assert r == [r[0]] + r[1..];
      [r[0]] + Insert(r[1..], i, scores)
  }

  /** The indices 0 .. k-1 in the order the computer tries them. */
  function Rank(scores: seq<int>, k: nat): (r: seq<nat>)
    requires k <= |scores|
    ensures |r| == k
    ensures forall x :: x in r <==> 0 <= x < k
    ensures forall p :: 0 <= p < |r| ==> r[p] < k
  {
    if k == 0 then []
    else
      var r := Insert(Rank(scores, k - 1), k - 1, scores);
      assert forall p :: 0 <= p < |r| ==> r[p] in r;
      r
  }

  /** `sorted(comp_piece_score.items(), key=score, reverse=True)`, keys only. */
  function Ranked(scores: seq<int>): (r: seq<nat>)
    ensures Sorted(scores, r)
    ensures forall x :: x in r <==> 0 <= x < |scores|
  {
    RankIsSorted(scores, |scores|);
    Rank(scores, |scores|)
  }

  lemma {:induction false} InsertKeepsSorted(r: seq<nat>, i: nat, scores: seq<int>)
    requires i < |scores| && forall k :: 0 <= k < |r| ==> r[k] < i
    requires Sorted(scores, r)
    ensures Sorted(scores, Insert(r, i, scores))
  {
    if r != [] && scores[r[0]] >= scores[i] {
      assert Sorted(scores, r[1..]) by {
        forall p, q | 0 <= p < q < |r| - 1 ensures Before(scores, r[1..][p], r[1..][q]) {
          assert Before(scores, r[p + 1], r[q + 1]);
        }
      }
      InsertKeepsSorted(r[1..], i, scores);
      var rest := Insert(r[1..], i, scores);
      forall q | 0 <= q < |rest| ensures Before(scores, r[0], rest[q]) {
        assert rest[q] in rest;
        if rest[q] != i {
          var p :| 1 <= p < |r| && r[p] == rest[q];
        }
      }
    } else if r != [] {
      forall q | 0 <= q < |r| ensures Before(scores, i, r[q]) {
        if q > 0 {
          assert Before(scores, r[0], r[q]);
        }
      }
    }
  }

  /** The ranking lists every hand index once, highest score first, ties in
      hand order. */
  lemma {:induction false} RankIsSorted(scores: seq<int>, k: nat)
    requires k <= |scores|
    ensures Sorted(scores, Rank(scores, k))
  {
    if k > 0 {
      RankIsSorted(scores, k - 1);
      InsertKeepsSorted(Rank(scores, k - 1), k - 1, scores);
    }
  }

  /** Two orders that hold the same indices and both follow `Before` are the
      same order: the ranking does not depend on how it is computed. */
  lemma {:induction false} SortedIsUnique(scores: seq<int>, a: seq<nat>, b: seq<nat>)
    requires Sorted(scores, a) && Sorted(scores, b)
    requires |a| == |b| && forall x :: x in a <==> x in b
    ensures a == b
  {
    if a != [] {
      assert a[0] in b;
      assert b[0] in b;
      assert b[0] in a;
      var q := IndexOf(b, a[0]);
      var p := IndexOf(a, b[0]);
      assert a[0] == b[0];
      assert Sorted(scores, a[1..]) && Sorted(scores, b[1..]) by {
        forall p, q | 0 <= p < q < |a| - 1 ensures Before(scores, a[1..][p], a[1..][q]) {
          assert Before(scores, a[p + 1], a[q + 1]);
        }
        forall p, q | 0 <= p < q < |b| - 1 ensures Before(scores, b[1..][p], b[1..][q]) {
          assert Before(scores, b[p + 1], b[q + 1]);
        }
      }
      forall x ensures x in a[1..] <==> x in b[1..] {
        if x in a[1..] {
          var p :| 1 <= p < |a| && a[p] == x;
          assert Before(scores, a[0], a[p]);
          assert x in b;
        }
        if x in b[1..] {
          var q :| 1 <= q < |b| && b[q] == x;
          assert Before(scores, b[0], b[q]);
          assert x in a;
        }
      }
      SortedIsUnique(scores, a[1..], b[1..]);
      assert a == [a[0]] + a[1..] && b == [b[0]] + b[1..];
    }
  }

  /** The ranking is the one order of all hand indices that follows `Before`. */
  lemma RankedIsTheOrder(scores: seq<int>, r: seq<nat>)
    ensures Sorted(scores, r) && |r| == |scores| && (forall x :: x in r <==> 0 <= x < |scores|) ==>
      r == Ranked(scores)
  {
    if Sorted(scores, r) && |r| == |scores| && (forall x :: x in r <==> 0 <= x < |scores|) {
      SortedIsUnique(scores, r, Ranked(scores));
    }
  }

  // ---------------------------------------------------------------------
  // Trying the tiles in ranked order

  /** The tile touches the right end or the left end. */
  predicate Fits(t: Tile, left: Pip, right: Pip) {
    t.Has(right) || t.Has(left)
  }

  /** The first position in `order` whose tile fits; `|order|` when none does. */
  function FitPosition(hand: seq<Tile>, order: seq<nat>, left: Pip, right: Pip): (p: nat)
    requires forall k :: 0 <= k < |order| ==> order[k] < |hand|
    ensures p <= |order|
    ensures p < |order| ==> Fits(hand[order[p]], left, right)
    ensures forall q :: 0 <= q < p ==> !Fits(hand[order[q]], left, right)
  {
    if order == [] then 0
    else if Fits(hand[order[0]], left, right) then 0
    else 1 + FitPosition(hand, order[1..], left, right)
  }

  /** The first tile of `order` that fits, on the right end when it touches
      that end and on the left end otherwise. */
  function FirstFit(hand: seq<Tile>, order: seq<nat>, left: Pip, right: Pip): (m: Move)
    requires forall k :: 0 <= k < |order| ==> order[k] < |hand|
    ensures m.PlaceRight? ==> m.i < |hand| && hand[m.i].Has(right)
    ensures m.PlaceLeft? ==> m.i < |hand| && !hand[m.i].Has(right) && hand[m.i].Has(left)
  {
    var p := FitPosition(hand, order, left, right);
    if p == |order| then NoFit
    else if hand[order[p]].Has(right) then PlaceRight(order[p])
    else PlaceLeft(order[p])
  }

  /** The loop over `sorted_comp_scores`: the first tile that touches the
      right end goes there; otherwise the first that touches the left end. */
  method PickTile(hand: seq<Tile>, snake: seq<Tile>, order: seq<nat>) returns (m: Move)
    requires |snake| > 0
    requires forall k :: 0 <= k < |order| ==> order[k] < |hand|
    ensures m == FirstFit(hand, order, LeftEnd(snake), RightEnd(snake))
  {
    var left, right := LeftEnd(snake), RightEnd(snake);
    var p := 0;
    while p < |order|
      invariant 0 <= p <= |order|
      invariant forall q :: 0 <= q < p ==> !Fits(hand[order[q]], left, right)
    {
      var index := order[p];
      if hand[index].Has(right) {
        return PlaceRight(index);
      } else if hand[index].Has(left) {
        return PlaceLeft(index);
      }
      p := p + 1;
    }
    return NoFit;
  }

  /** The computer's move on hand `hand` against `snake`. */
  function ComputerChoice(hand: seq<Tile>, snake: seq<Tile>): (m: Move)
    requires |snake| > 0
    ensures m.PlaceRight? ==> m.i < |hand| && hand[m.i].Has(RightEnd(snake))
    ensures m.PlaceLeft? ==> m.i < |hand| && !hand[m.i].Has(RightEnd(snake)) && hand[m.i].Has(LeftEnd(snake))
  {
    FirstFit(hand, Ranked(Scores(hand, snake)), LeftEnd(snake), RightEnd(snake))
  }

  /** In a sorted order, an index that comes `Before` another sits earlier. */
  lemma SortedKeepsBefore(scores: seq<int>, order: seq<nat>, a: nat, b: nat)
    requires Sorted(scores, order) && a < |order| && b < |order|
    requires Before(scores, order[a], order[b])
    ensures a < b
  {
  }

  /** Trying the tiles in a sorted order of all of them: every tile tried
      before the first that fits (or every tile, when none fits) does not fit. */
  lemma FirstFitIsBest(hand: seq<Tile>, scores: seq<int>, order: seq<nat>, left: Pip, right: Pip)
    requires |scores| == |hand| && Sorted(scores, order)
    requires forall x :: x in order <==> 0 <= x < |hand|
    requires forall k :: 0 <= k < |order| ==> order[k] < |hand|
    ensures var p := FitPosition(hand, order, left, right);
      forall j :: 0 <= j < |hand| && (p == |order| || Before(scores, j, order[p])) ==> !Fits(hand[j], left, right)
  {
    var p := FitPosition(hand, order, left, right);
    forall j | 0 <= j < |hand| && (p == |order| || Before(scores, j, order[p]))
      ensures !Fits(hand[j], left, right)
    {
      var q := IndexOf(order, j);
      if p < |order| {
        SortedKeepsBefore(scores, order, q, p);
      }
    }
  }

  /** The computer places the best-scoring tile that fits (ties to the
      earlier hand position), on the right end whenever that tile touches it;
      only when no tile fits either end does it place nothing. */
  lemma ComputerChoiceIsBest(hand: seq<Tile>, snake: seq<Tile>)
    requires |snake| > 0
    ensures var s, left, right := Scores(hand, snake), LeftEnd(snake), RightEnd(snake);
      match ComputerChoice(hand, snake)
      case PlaceRight(i) =>
        i < |hand| && hand[i].Has(right) &&
        forall j :: 0 <= j < |hand| && Before(s, j, i) ==> !Fits(hand[j], left, right)
      case PlaceLeft(i) =>
        i < |hand| && !hand[i].Has(right) && hand[i].Has(left) &&
        forall j :: 0 <= j < |hand| && Before(s, j, i) ==> !Fits(hand[j], left, right)
      case NoFit =>
        forall j :: 0 <= j < |hand| ==> !Fits(hand[j], left, right)
  {
    var s := Scores(hand, snake);
    FirstFitIsBest(hand, s, Ranked(s), LeftEnd(snake), RightEnd(snake));
  }

  /** The decision half of `computer_move`: tally the values, score the
      tiles, rank them and try them in that order. Nothing is changed. */
  method ChooseMove(hand: seq<Tile>, snake: seq<Tile>) returns (m: Move)
    requires |snake| > 0
    ensures m == ComputerChoice(hand, snake)
  {
    var tally := TallyValues(hand, snake);
    var scores := ScoreTiles(hand, tally);
    assert scores == Scores(hand, snake);
    var order := Ranked(scores);
    m := PickTile(hand, snake, order);
  }
}
