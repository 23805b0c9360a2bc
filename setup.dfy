/** Setting up a game: shuffling a copy of the set, dealing the two hands
    from the end of the pool, and finding the opening double. */
module Setup {
  import opened Tiles

  /** Whose move it is: the program's "player", "computer" and None. */
  datatype Status = ToPlayer | ToComputer | Undecided

  /** The random source's answers for one shuffle of `n` items:
      `picks[i]` is the `randbelow(i + 1)` drawn when position `i` is swapped
      (`picks[0]` is never used and is 0). */
  predicate ShufflePicks(picks: seq<nat>, n: nat) {
    |picks| == n && forall i :: 0 <= i < n ==> picks[i] <= i
  }

  /** `random.shuffle`: the Fisher-Yates pass from the last position down to
      position 1, each swapped with a position at or below it. */
  method Shuffle(a: array<Tile>, picks: seq<nat>)
    requires ShufflePicks(picks, a.Length)
    modifies a
    ensures multiset(a[..]) == old(multiset(a[..]))
  {
    var i := a.Length - 1;
    while i > 0
      invariant -1 <= i < a.Length
      invariant multiset(a[..]) == old(multiset(a[..]))
    {
      var j := picks[i];
      a[i], a[j] := a[j], a[i];
      i := i - 1;
    }
  }

  /** `reset`: a shuffled copy of the given set; the argument is left as it was. */
  method Reset(dominoSet: seq<Tile>, picks: seq<nat>) returns (shuffled: seq<Tile>)
    requires ShufflePicks(picks, |dominoSet|)
    ensures |shuffled| == |dominoSet|
    ensures multiset(shuffled) == multiset(dominoSet)
  {
    var copy := new Tile[|dominoSet|](i requires 0 <= i < |dominoSet| => dominoSet[i]);
    assert copy[..] == dominoSet;
    Shuffle(copy, picks);
    shuffled := copy[..];
  }

  /** The tiles one hand receives in the first `rounds` rounds of dealing
      from the end of `pool`: the player takes the last tile of each round
      (`offset` 0) and the computer the one before it (`offset` 1). */
  function Dealt(pool: seq<Tile>, rounds: nat, offset: nat): seq<Tile>
    requires offset <= 1 && 2 * rounds <= |pool|
  {
    if rounds == 0 then []
    else Dealt(pool, rounds - 1, offset) + [pool[|pool| - 1 - offset - 2 * (rounds - 1)]]
  }

  /** Round `k` hands the tile `offset + 2k` places from the end. */
  lemma {:induction false} DealtAt(pool: seq<Tile>, rounds: nat, offset: nat)
    requires offset <= 1 && 2 * rounds <= |pool|
    ensures |Dealt(pool, rounds, offset)| == rounds
    ensures forall k :: 0 <= k < rounds ==> Dealt(pool, rounds, offset)[k] == pool[|pool| - 1 - offset - 2 * k]
  {
    if rounds > 0 {
      DealtAt(pool, rounds - 1, offset);
    }
  }

  lemma MultisetTransitive(a: multiset<Tile>, b: multiset<Tile>, c: multiset<Tile>)
    requires a == b && b == c
    ensures a == c
  {
  }

  /** One more round deals one more tile to each hand, from the end of
      what the earlier rounds left. */
  lemma DealtStep(pool: seq<Tile>, before: nat, rounds: nat, offset: nat)
    requires offset <= 1 && rounds == before + 1 && 2 * rounds <= |pool|
    ensures Dealt(pool, rounds, offset) == Dealt(pool, before, offset) + [pool[|pool| - 1 - offset - 2 * before]]
  {
  }

  /** Round `rounds` (the one after round `before`) moves the last two
      tiles left in the pool into the hands and loses none. */
  lemma DealRoundKeepsBag(pool: seq<Tile>, before: nat, rounds: nat)
    requires rounds == before + 1 && 2 * rounds <= |pool|
    ensures multiset(Dealt(pool, rounds, 0)) + multiset(Dealt(pool, rounds, 1)) + multiset(pool[..|pool| - 2 * rounds]) ==
      multiset(Dealt(pool, before, 0)) + multiset(Dealt(pool, before, 1)) + multiset(pool[..|pool| - 2 * before])
  {
    var rest, left := pool[..|pool| - 2 * before], pool[..|pool| - 2 * rounds];
    var toPlayer, toComputer := pool[|pool| - 1 - 2 * before], pool[|pool| - 2 - 2 * before];
    assert rest == left + [toComputer, toPlayer];
    assert multiset(rest) == multiset(left) + multiset{toComputer, toPlayer};
    DealtStep(pool, before, rounds, 0);
    assert multiset(Dealt(pool, rounds, 0)) == multiset(Dealt(pool, before, 0)) + multiset{toPlayer};
    DealtStep(pool, before, rounds, 1);
    assert multiset(Dealt(pool, rounds, 1)) == multiset(Dealt(pool, before, 1)) + multiset{toComputer};
    Regroup(multiset(Dealt(pool, before, 0)), multiset(Dealt(pool, before, 1)), multiset(left), toPlayer, toComputer);
  }

  /** Adding one element to each of two bags adds both to their sum. */
  lemma Regroup(a: multiset<Tile>, b: multiset<Tile>, rest: multiset<Tile>, x: Tile, y: Tile)
    ensures (a + multiset{x}) + (b + multiset{y}) + rest == a + b + (rest + multiset{y, x})
  {
  }

  /** Dealing loses no tile: the two hands and what is left of the pool
      hold the pool's tiles. */
  lemma {:induction false} DealtIsPermutation(pool: seq<Tile>, rounds: nat)
    requires 2 * rounds <= |pool|
    ensures multiset(Dealt(pool, rounds, 0)) + multiset(Dealt(pool, rounds, 1)) +
      multiset(pool[..|pool| - 2 * rounds]) == multiset(pool)
  {
    if rounds > 0 {
      var before := rounds - 1;
      DealtIsPermutation(pool, before);
      DealRoundKeepsBag(pool, before, rounds);
      MultisetTransitive(
        multiset(Dealt(pool, rounds, 0)) + multiset(Dealt(pool, rounds, 1)) + multiset(pool[..|pool| - 2 * rounds]),
        multiset(Dealt(pool, before, 0)) + multiset(Dealt(pool, before, 1)) + multiset(pool[..|pool| - 2 * before]),
        multiset(pool));
    } else {
      assert pool[..|pool|] == pool;
    }
  }

  /** `assign`: seven rounds, each popping one tile from the end of the pool
      for the player and then one for the computer. */
  method Assign(dominoSet: seq<Tile>) returns (playerHand: seq<Tile>, computerHand: seq<Tile>, rest: seq<Tile>)
    requires |dominoSet| >= 14
    ensures |playerHand| == 7 && |computerHand| == 7
    ensures rest == dominoSet[..|dominoSet| - 14]
    ensures playerHand == Dealt(dominoSet, 7, 0) && computerHand == Dealt(dominoSet, 7, 1)
    ensures forall k :: 0 <= k < 7 ==>
      playerHand[k] == dominoSet[|dominoSet| - 1 - 2 * k] &&
      computerHand[k] == dominoSet[|dominoSet| - 2 - 2 * k]
    ensures multiset(playerHand) + multiset(computerHand) + multiset(rest) == multiset(dominoSet)
  {
    playerHand, computerHand, rest := [], [], dominoSet;
    var round := 0;
    while round < 7
      invariant 0 <= round <= 7
      invariant rest == dominoSet[..|dominoSet| - 2 * round]
      invariant playerHand == Dealt(dominoSet, round, 0) && computerHand == Dealt(dominoSet, round, 1)
    {
      var n := |rest|;
      playerHand := playerHand + [rest[n - 1]];
      computerHand := computerHand + [rest[n - 2]];
      rest := rest[..n - 2];
      round := round + 1;
    }
    DealtAt(dominoSet, 7, 0);
    DealtAt(dominoSet, 7, 1);
    DealtIsPermutation(dominoSet, 7);
  }

  /** Who holds the opening double, and which one. */
  datatype Opening = PlayerHolds(d: Pip) | ComputerHolds(d: Pip) | NoDouble

  /** Doubles are looked for from `[d, d]` down to `[0, 0]`; at each value the
      player's hand is looked at before the computer's. */
  function DoubleFrom(player: seq<Tile>, computer: seq<Tile>, d: int): Opening
    requires d <= 6
    decreases d + 1
  {
    if d < 0 then NoDouble
    else if Tile(d, d) in player then PlayerHolds(d)
    else if Tile(d, d) in computer then ComputerHolds(d)
    else DoubleFrom(player, computer, d - 1)
  }

  function HighestDouble(player: seq<Tile>, computer: seq<Tile>): Opening {
    DoubleFrom(player, computer, 6)
  }

  /** The scan finds the highest double either hand holds, and the player's
      when both could answer at the same value (they cannot both hold it). */
  lemma {:induction false} DoubleFromFindsHighest(player: seq<Tile>, computer: seq<Tile>, d: int)
    requires d <= 6
    ensures match DoubleFrom(player, computer, d)
      case PlayerHolds(e) =>
        e <= d && Tile(e, e) in player &&
        forall f: Pip :: e < f <= d ==> Tile(f, f) !in player && Tile(f, f) !in computer
      case ComputerHolds(e) =>
        e <= d && Tile(e, e) in computer && Tile(e, e) !in player &&
        forall f: Pip :: e < f <= d ==> Tile(f, f) !in player && Tile(f, f) !in computer
      case NoDouble =>
        forall f: Pip :: f <= d ==> Tile(f, f) !in player && Tile(f, f) !in computer
    decreases d + 1
  {
    if d >= 0 && Tile(d, d) !in player && Tile(d, d) !in computer {
      DoubleFromFindsHighest(player, computer, d - 1);
    }
  }

  /** The hands, the snake and whose move it is once the opening is made. */
  datatype Table = Table(playerHand: seq<Tile>, computerHand: seq<Tile>, snake: seq<Tile>, state: Status)

  /** The opening: the double found is taken out of the hand holding it and
      becomes the whole snake, and the other side is to move; without a
      double nothing changes and the status stays undecided. */
  function Opened(player: seq<Tile>, computer: seq<Tile>): (t: Table)
    ensures t.state == Undecided <==> t.snake == []
    ensures t.state != Undecided ==> |t.snake| == 1 && t.snake[0].IsDouble()
  {
    match HighestDouble(player, computer)
    case PlayerHolds(d) => Table(RemoveFirst(player, Tile(d, d)), computer, [Tile(d, d)], ToComputer)
    case ComputerHolds(d) => Table(player, RemoveFirst(computer, Tile(d, d)), [Tile(d, d)], ToPlayer)
    case NoDouble => Table(player, computer, [], Undecided)
  }

  /** Opening loses no tile and adds none: the hands and the snake hold the
      tiles the hands held before. */
  lemma OpenedKeepsTiles(player: seq<Tile>, computer: seq<Tile>)
    ensures var t := Opened(player, computer);
      multiset(t.playerHand) + multiset(t.computerHand) + multiset(t.snake) == multiset(player) + multiset(computer)
  {
    DoubleFromFindsHighest(player, computer, 6);
  }

  /** The shape of the table after the opening: the side to move is the one
      that did not hold the double, and the snake is that one double. */
  lemma OpenedShape(player: seq<Tile>, computer: seq<Tile>)
    ensures var t := Opened(player, computer);
      match t.state
      case ToComputer =>
        |t.playerHand| == |player| - 1 && t.computerHand == computer && |t.snake| == 1 && t.snake[0].IsDouble()
      case ToPlayer =>
        t.playerHand == player && |t.computerHand| == |computer| - 1 && |t.snake| == 1 && t.snake[0].IsDouble()
      case Undecided =>
        t.playerHand == player && t.computerHand == computer && t.snake == []
  {
  }

  /** `determine`: the loop from `[6, 6]` down, looking in the player's hand
      before the computer's. */
  method Determine(player: seq<Tile>, computer: seq<Tile>)
      returns (playerHand: seq<Tile>, computerHand: seq<Tile>, snake: seq<Tile>, state: Status)
    ensures Table(playerHand, computerHand, snake, state) == Opened(player, computer)
  {
    playerHand, computerHand, snake, state := player, computer, [], Undecided;
    var i := 0;
    while i < 7
      invariant 0 <= i <= 7
      invariant HighestDouble(player, computer) == DoubleFrom(player, computer, 6 - i)
      invariant playerHand == player && computerHand == computer
      invariant snake == [] && state == Undecided
    {
      var checkPiece := Tile(6 - i, 6 - i);
      if checkPiece in playerHand {
        assert HighestDouble(player, computer) == PlayerHolds(6 - i);
        playerHand := RemoveFirst(playerHand, checkPiece);
        snake := [checkPiece];
        state := ToComputer;
        return;
      } else if checkPiece in computerHand {
        assert HighestDouble(player, computer) == ComputerHolds(6 - i);
        computerHand := RemoveFirst(computerHand, checkPiece);
        snake := [checkPiece];
        state := ToPlayer;
        return;
      }
      i := i + 1;
    }
    assert HighestDouble(player, computer) == NoDouble;
  }
}
