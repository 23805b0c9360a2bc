/** The game state and its turns: the pool, the two hands and the snake,
    the player's and the computer's moves, and the end-of-game check. */
module Game {
  import opened Tiles
  import opened Chain
  import opened Setup
  import opened Strategy

  /** How a player command ends: rejected (index out of range), illegal
      (the tile does not touch the chosen end), or made, with whose move is next. */
  datatype Reply = Invalid | Illegal | Next(status: Status)

  /** What `check_win` decides. */
  datatype Outcome = PlayerWon | ComputerWon | Draw | Continue

  function Abs(x: int): nat {
    if x < 0 then -x else x
  }

  /** All tiles in play, each as it lies in the canonical set. */
  ghost function Held(pool: seq<Tile>, player: seq<Tile>, computer: seq<Tile>, snake: seq<Tile>): multiset<Tile> {
    Bag(pool + player + computer + snake)
  }

  lemma HeldSplit(pool: seq<Tile>, player: seq<Tile>, computer: seq<Tile>, snake: seq<Tile>)
    ensures Held(pool, player, computer, snake) == Bag(pool) + Bag(player) + Bag(computer) + Bag(snake)
  {
    BagConcat(pool + player + computer, snake);
    BagConcat(pool + player, computer);
    BagConcat(pool, player);
  }

  /** The four containers together hold the canonical set, each tile once. */
  ghost predicate Conserved(pool: seq<Tile>, player: seq<Tile>, computer: seq<Tile>, snake: seq<Tile>) {
    FullSet(Held(pool, player, computer, snake))
  }

  /** While the containers hold the whole set, no tile is in play twice: in
      particular neither hand holds the same tile twice. */
  lemma ConservedIsDistinct(pool: seq<Tile>, player: seq<Tile>, computer: seq<Tile>, snake: seq<Tile>)
    requires Conserved(pool, player, computer, snake)
    ensures Distinct(Canon(pool)) && Distinct(Canon(player))
    ensures Distinct(Canon(computer)) && Distinct(Canon(snake))
    ensures Distinct(player) && Distinct(computer)
  {
    var held := Held(pool, player, computer, snake);
    HeldSplit(pool, player, computer, snake);
    PartOfFullSetIsDistinct(pool, held);
    PartOfFullSetIsDistinct(player, held);
    PartOfFullSetIsDistinct(computer, held);
    PartOfFullSetIsDistinct(snake, held);
    CanonDistinct(player);
    CanonDistinct(computer);
  }

  /** `computer_hand.index(domino)` for the `domino` at position `i` is `i`:
      the score table is keyed by hand position. */
  lemma ScoreKeyIsPosition(pool: seq<Tile>, player: seq<Tile>, computer: seq<Tile>, snake: seq<Tile>, i: nat)
    requires Conserved(pool, player, computer, snake) && i < |computer|
    ensures IndexOf(computer, computer[i]) == i
  {
    ConservedIsDistinct(pool, player, computer, snake);
    IndexOfDistinct(computer, i);
  }

  lemma MultisetOfFour(a: seq<Tile>, b: seq<Tile>, c: seq<Tile>, d: seq<Tile>)
    ensures multiset(a + b + c + d) == multiset(a) + multiset(b) + multiset(c) + multiset(d)
  {
  }

  /** Dealing from a shuffled set and taking out the opening double leaves
      the whole set in play, the pool being what dealing left. */
  lemma OpeningIsConserved(shuffled: seq<Tile>, player: seq<Tile>, computer: seq<Tile>, rest: seq<Tile>,
                           playerHand: seq<Tile>, computerHand: seq<Tile>, snake: seq<Tile>)
    requires FullSet(multiset(shuffled))
    requires multiset(player) + multiset(computer) + multiset(rest) == multiset(shuffled)
    requires multiset(playerHand) + multiset(computerHand) + multiset(snake) == multiset(player) + multiset(computer)
    ensures Conserved(rest, playerHand, computerHand, snake)
  {
    var all := rest + playerHand + computerHand + snake;
    MultisetOfFour(rest, playerHand, computerHand, snake);
    assert multiset(all) == multiset(shuffled);
    SubsetIsCanonical(all, multiset(shuffled));
    BagOfCanonical(all);
  }

  lemma BagSingleton(t: Tile)
    ensures Bag([t]) == multiset{t.Norm()}
  {
    assert [t][1..] == [];
  }

  /** The player's draw moves one tile from the pool to the player's hand. */
  lemma PlayerDrawKeepsHeld(pool: seq<Tile>, player: seq<Tile>, computer: seq<Tile>, snake: seq<Tile>, i: nat)
    requires i < |pool|
    ensures Held(RemoveAt(pool, i), player + [pool[i]], computer, snake) == Held(pool, player, computer, snake)
  {
    HeldSplit(pool, player, computer, snake);
    HeldSplit(RemoveAt(pool, i), player + [pool[i]], computer, snake);
    BagRemoveAt(pool, i);
    BagSingleton(pool[i]);
    BagConcat(player, [pool[i]]);
  }

  /** The computer's draw moves one tile from the pool to the computer's hand. */
  lemma ComputerDrawKeepsHeld(pool: seq<Tile>, player: seq<Tile>, computer: seq<Tile>, snake: seq<Tile>, i: nat)
    requires i < |pool|
    ensures Held(RemoveAt(pool, i), player, computer + [pool[i]], snake) == Held(pool, player, computer, snake)
  {
    HeldSplit(pool, player, computer, snake);
    HeldSplit(RemoveAt(pool, i), player, computer + [pool[i]], snake);
    BagRemoveAt(pool, i);
    BagSingleton(pool[i]);
    BagConcat(computer, [pool[i]]);
  }

  /** The player's tile moves from the hand to the left end of the snake. */
  lemma PlayerLeftKeepsHeld(pool: seq<Tile>, player: seq<Tile>, computer: seq<Tile>, snake: seq<Tile>, i: nat)
    requires |snake| > 0 && i < |player| && player[i].Has(LeftEnd(snake))
    ensures Held(pool, RemoveAt(player, i), computer, Prepend(snake, player[i])) == Held(pool, player, computer, snake)
  {
    HeldSplit(pool, player, computer, snake);
    HeldSplit(pool, RemoveAt(player, i), computer, Prepend(snake, player[i]));
    BagRemoveAt(player, i);
  }

  /** The player's tile moves from the hand to the right end of the snake. */
  lemma PlayerRightKeepsHeld(pool: seq<Tile>, player: seq<Tile>, computer: seq<Tile>, snake: seq<Tile>, i: nat)
    requires |snake| > 0 && i < |player| && player[i].Has(RightEnd(snake))
    ensures Held(pool, RemoveAt(player, i), computer, Append(snake, player[i])) == Held(pool, player, computer, snake)
  {
    HeldSplit(pool, player, computer, snake);
    HeldSplit(pool, RemoveAt(player, i), computer, Append(snake, player[i]));
    BagRemoveAt(player, i);
  }

  /** The computer's tile moves from its hand to the left end of the snake. */
  lemma ComputerLeftKeepsHeld(pool: seq<Tile>, player: seq<Tile>, computer: seq<Tile>, snake: seq<Tile>, i: nat)
    requires |snake| > 0 && i < |computer| && computer[i].Has(LeftEnd(snake))
    ensures Held(pool, player, RemoveAt(computer, i), Prepend(snake, computer[i])) == Held(pool, player, computer, snake)
  {
    HeldSplit(pool, player, computer, snake);
    HeldSplit(pool, player, RemoveAt(computer, i), Prepend(snake, computer[i]));
    BagRemoveAt(computer, i);
  }

  /** The computer's tile moves from its hand to the right end of the snake. */
  lemma ComputerRightKeepsHeld(pool: seq<Tile>, player: seq<Tile>, computer: seq<Tile>, snake: seq<Tile>, i: nat)
    requires |snake| > 0 && i < |computer| && computer[i].Has(RightEnd(snake))
    ensures Held(pool, player, RemoveAt(computer, i), Append(snake, computer[i])) == Held(pool, player, computer, snake)
  {
    HeldSplit(pool, player, computer, snake);
    HeldSplit(pool, player, RemoveAt(computer, i), Append(snake, computer[i]));
    BagRemoveAt(computer, i);
  }

  class Game {
    var pool: seq<Tile>
    var player: seq<Tile>
    var computer: seq<Tile>
    var snake: seq<Tile>

    ghost predicate Valid()
      reads this
    {
      Chained(snake)
    }

    constructor (pool: seq<Tile>, player: seq<Tile>, computer: seq<Tile>, snake: seq<Tile>)
      requires Conserved(pool, player, computer, snake) && Chained(snake)
      ensures Valid()
      ensures this.pool == pool && this.player == player
      ensures this.computer == computer && this.snake == snake
    {
      this.pool, this.player, this.computer, this.snake := pool, player, computer, snake;
    }

    /** `player_move` for one command already read as the integer `choice`.
        `drawAt` is the pool position the shuffle brings to the end when the
        command is a draw. */
    method PlayerMove(choice: int, drawAt: nat) returns (reply: Reply)
      requires Valid()
      requires choice != 0 && Abs(choice) <= |player| ==> |snake| > 0
      requires choice == 0 && |pool| > 0 ==> drawAt < |pool|
      modifies this`pool, this`player, this`snake
      ensures Valid()
      ensures reply == Invalid <==> Abs(choice) > old(|player|)
      ensures reply == Invalid || reply == Illegal ==>
        pool == old(pool) && player == old(player) && snake == old(snake)
      ensures choice == 0 ==>
        reply == Next(ToComputer) && snake == old(snake) &&
        if old(|pool|) > 0 then
          player == old(player) + [old(pool[drawAt])] && pool == RemoveAt(old(pool), drawAt)
        else
          player == old(player) && pool == old(pool)
      ensures choice < 0 && Abs(choice) <= old(|player|) ==>
        var tile := old(player[-choice - 1]);
        if tile.Has(LeftEnd(old(snake))) then
          reply == Next(ToComputer) && pool == old(pool) &&
          player == RemoveAt(old(player), -choice - 1) && snake == Prepend(old(snake), tile)
        else
          reply == Illegal
      ensures 0 < choice <= old(|player|) ==>
        var tile := old(player[choice - 1]);
        if tile.Has(RightEnd(old(snake))) then
          reply == Next(ToComputer) && pool == old(pool) &&
          player == RemoveAt(old(player), choice - 1) && snake == Append(old(snake), tile)
        else
          reply == Illegal
    {
      // The lower bound is always met: it compares with abs(choice).
      if -|player| <= Abs(choice) <= |player| {
        var index := Abs(choice) - 1;
        if choice == 0 {
          if |pool| > 0 {
            var tile := pool[drawAt];
            pool := RemoveAt(pool, drawAt);
            player := player + [tile];
          }
          return Next(ToComputer);
        } else if choice < 0 {
          if player[index].Has(LeftEnd(snake)) {
            snake := Prepend(snake, player[index]);
            player := RemoveAt(player, index);
            return Next(ToComputer);
          } else {
            return Illegal;
          }
        } else {
          if player[index].Has(RightEnd(snake)) {
            snake := Append(snake, player[index]);
            player := RemoveAt(player, index);
            return Next(ToComputer);
          } else {
            return Illegal;
          }
        }
      } else {
        return Invalid;
      }
    }

    /** `computer_move`. `drawAt` is the pool position the shuffle brings to
        the end when no tile fits. */
    method ComputerMove(drawAt: nat) returns (next: Status)
      requires Valid() && |snake| > 0
      requires |pool| > 0 ==> drawAt < |pool|
      modifies this`pool, this`computer, this`snake
      ensures Valid() && |snake| > 0
      ensures match ComputerChoice(old(computer), old(snake))
        case PlaceRight(i) =>
          next == ToPlayer && pool == old(pool) &&
          computer == RemoveAt(old(computer), i) && snake == Append(old(snake), old(computer[i]))
        case PlaceLeft(i) =>
          next == ToPlayer && pool == old(pool) &&
          computer == RemoveAt(old(computer), i) && snake == Prepend(old(snake), old(computer[i]))
        case NoFit =>
          snake == old(snake) &&
          if old(|pool|) > 0 then
            next == ToPlayer &&
            computer == old(computer) + [old(pool[drawAt])] && pool == RemoveAt(old(pool), drawAt)
          else
            next == Undecided && computer == old(computer) && pool == old(pool)
    {
      var move := ChooseMove(computer, snake);
      match move
      case PlaceRight(index) =>
        snake := Append(snake, computer[index]);
        computer := RemoveAt(computer, index);
        next := ToPlayer;
      case PlaceLeft(index) =>
        snake := Prepend(snake, computer[index]);
        computer := RemoveAt(computer, index);
        next := ToPlayer;
      case NoFit =>
        if |pool| > 0 {
          var tile := pool[drawAt];
          pool := RemoveAt(pool, drawAt);
          computer := computer + [tile];
          next := ToPlayer;
        } else {
          next := Undecided;
        }
    }
  }

  /** Dealing from a shuffled set and making the opening (`main`'s calls to
      `assign` and `determine`). `state` is whose move it is; when it is
      undecided no double was dealt and the program starts over. */
  method Deal(shuffled: seq<Tile>) returns (g: Game, state: Status)
    requires |shuffled| == 28 && FullSet(multiset(shuffled))
    ensures fresh(g) && g.Valid()
    ensures Conserved(g.pool, g.player, g.computer, g.snake)
    ensures |g.pool| == 14
    ensures match state
      case ToComputer =>
        |g.player| == 6 && |g.computer| == 7 && |g.snake| == 1 && g.snake[0].IsDouble()
      case ToPlayer =>
        |g.player| == 7 && |g.computer| == 6 && |g.snake| == 1 && g.snake[0].IsDouble()
      case Undecided =>
        |g.player| == 7 && |g.computer| == 7 && g.snake == []
  {
    var player, computer, rest := Assign(shuffled);
    var playerHand, computerHand, snake, status := Determine(player, computer);
    OpenedKeepsTiles(player, computer);
    OpenedShape(player, computer);
    ShortIsChained(snake);
    OpeningIsConserved(shuffled, player, computer, rest, playerHand, computerHand, snake);
    g := new Game(rest, playerHand, computerHand, snake);
    state := status;
  }

  /** The set-up `main` does before its loop: a shuffled copy of the set,
      dealt, with the opening made. */
  method Start(picks: seq<nat>) returns (g: Game, state: Status)
    requires ShufflePicks(picks, |Dominos|)
    ensures fresh(g) && g.Valid()
    ensures Conserved(g.pool, g.player, g.computer, g.snake)
    ensures |g.pool| == 14
    ensures match state
      case ToComputer =>
        |g.player| == 6 && |g.computer| == 7 && |g.snake| == 1 && g.snake[0].IsDouble()
      case ToPlayer =>
        |g.player| == 7 && |g.computer| == 6 && |g.snake| == 1 && g.snake[0].IsDouble()
      case Undecided =>
        |g.player| == 7 && |g.computer| == 7 && g.snake == []
  {
    var shuffled := Reset(Dominos, picks);
    DominosFormFullSet();
    g, state := Deal(shuffled);
  }
}
