# Dominoes engine, modelled in Dafny

This project models the game engine of `dominoes.py`, a console game of
double-six dominoes played by a human ("player") against the program
("computer"). It covers these parts of the engine:

- **The 28-tile set** `DOMINOS`. `reset` makes a shuffled copy of it.
- **Dealing** (`assign`). Seven rounds take tiles from the end of the pool, the player's tile first.
- **The opening** (`determine`). The highest double in either hand starts the snake, and the other side moves first.
- **The player's move** (`player_move`). It takes a signed 1-based hand index: a negative index places on the left end, a positive one on the right end, and 0 draws.
- **The computer's move** (`computer_move`). Values are tallied over its hand and the snake, and every hand tile gets a score. The tiles are tried in descending score order, ties in hand order. The first tile in that order that touches either end is placed: on the right end if it touches that end, otherwise on the left. When no tile touches either end, the computer draws.
- **The end check** (`check_win`). Either side's empty hand wins, checked player first. A closed snake whose running count of its end value reaches 8 is a draw.

The model has six modules, one per file:

- `tiles.dfy` (`Tiles`): tiles, the canonical set, counting and container bags.
- `chain.dfy` (`Chain`): the snake's ends, adjacency, and placing a tile turned the right way.
- `setup.dfy` (`Setup`): `reset`, `assign` and `determine`.
  - `Reset` copies the set into an array and calls `Shuffle`, a loop; both are proved to keep the tiles, a permutation and nothing more.
  - `Assign` and `Determine` are methods with loops, each proved against a function that defines its result.
- `strategy.dfy` (`Strategy`): the computer's tally, scores, stable ranking and ranked search.
- `game.dfy` (`Game`): the class `Game`, whose fields are the pool, the two hands and the snake.
  - `PlayerMove` and `ComputerMove` update those fields in place.
  - `Deal` and `Start` build a game the way `main` sets one up.
- `ending.dfy` (`Ending`): `check_win`, and what its draw rule means.

### Main invariant: no tile gained or lost

`Conserved` says that the pool, both hands and the snake together hold the 28 canonical tiles exactly once each, whichever way round each tile lies. It is proved like this:

- `Start` establishes it.
- Each tile-moving transition of `PlayerMove` and `ComputerMove` has a lemma saying the tiles held are unchanged: the two draws and the four placements.
- Other lemmas follow from it:
  - no hand holds a tile twice, so `list.index` is the position;
  - every value shows exactly 8 halves over the whole table;
  - a declared draw is exactly a closed snake showing all 8 halves of its end value, so nobody can place again.

## Model

| member | source | states |
|---|---|---|
| Tiles.DominosIsFullSet | dominoes.py:5-12 | `DOMINOS` has 28 tiles, each with its smaller half first, all distinct, and every pair 0 ≤ a ≤ b ≤ 6 is among them |
| Tiles.DominosIncreasing | dominoes.py:5-12 | the list is strictly increasing in (first, second) order |
| Tiles.DominosOccurrences | dominoes.py:5-12 | every value 0..6 shows on exactly 8 halves of the set, a double counting 2 |
| Tiles.FullSetIsDominos | dominoes.py:5-12 | any bag holding each canonical tile once is the set's own multiset |
| Tiles.DominosFormFullSet | dominoes.py:5-12 | the set's multiset holds each canonical tile once and nothing else |
| Tiles.RemoveAt | dominoes.py:110 | `pop(i)` keeps the elements before `i`, shifts those after it down by one, and removes exactly one copy of element `i` |
| Tiles.IndexOf | dominoes.py:144 | `list.index` returns the first position holding the element |
| Tiles.RemoveFirst | dominoes.py:60 | `list.remove` shortens the list by one and removes exactly one copy of the element |
| Tiles.RemoveFirstIsFirst | dominoes.py:60 | `list.remove` deletes the first element equal to the given one, at a position before which it does not occur, and keeps the others in their order |
| Tiles.IndexOfDistinct | dominoes.py:144 | in a list without repeats, `index` of the element at position `i` is `i` |
| Tiles.OccurrencesPermutation | dominoes.py:137-142 | the value count depends only on the multiset of tiles, not their order |
| Tiles.OccurrencesCanon | dominoes.py:112 | turning tiles round (`reverse`) does not change any value count |
| Tiles.BagRemoveAt | dominoes.py:110 | popping a tile removes exactly its canonical copy from the container's bag |
| Chain.FacingLeftEnd | dominoes.py:109-113 | a tile placed on the left shows the left end on its second half, keeps its two values, and is unchanged if it already faced that way |
| Chain.FacingRightEnd | dominoes.py:119-123 | a tile placed on the right shows the right end on its first half, keeps its two values, and is unchanged if it already faced that way |
| Chain.FacingIsIdempotent | dominoes.py:109-113 | turning a tile to face an end twice is the same as once |
| Chain.Prepend | dominoes.py:110-113 | `insert(0, ...)` grows the snake by the tile turned to match the left end, keeps the right end and adjacency, and adds exactly that tile to the snake's bag |
| Chain.Append | dominoes.py:120-123 | `append` grows the snake by the tile turned to match the right end, keeps the left end and adjacency, and adds exactly that tile to the snake's bag |
| Chain.ShortIsChained | dominoes.py:55-61 | the opening snake (empty, or one double) satisfies adjacency |
| Setup.Shuffle | dominoes.py:37 | the Fisher-Yates pass leaves the array a permutation of itself |
| Setup.Reset | dominoes.py:33-38 | the result has the argument's length and is a permutation of it; the argument, a value, is untouched |
| Setup.DealtAt | dominoes.py:46-48 | after `r` rounds the player holds the pool's tiles at positions n-1, n-3, … and the computer those at n-2, n-4, …, in dealing order |
| Setup.DealtIsPermutation | dominoes.py:46-48 | after any number of rounds the two hands plus the rest of the pool are a permutation of the original pool |
| Setup.Assign | dominoes.py:41-49 | each hand gets 7 tiles, player's from the last position and alternating, the pool loses exactly its last 14, and hands plus pool are a permutation of the original |
| Setup.Opened | dominoes.py:55-69 | the opening leaves the status undecided exactly when the snake stays empty; otherwise the snake is one double |
| Setup.DoubleFromFindsHighest | dominoes.py:57-68 | the scan finds the highest double in either hand, prefers the player's hand at equal value, and finds none only when neither hand holds a double |
| Setup.OpenedKeepsTiles | dominoes.py:55-69 | the opening loses and adds no tile: the hands plus the snake are a permutation of the hands before |
| Setup.OpenedShape | dominoes.py:55-69 | the player holding the double means the computer moves next, and vice versa; the holder's hand shrinks by one and the snake is that double; with no double the hands are unchanged, the snake is empty and the state undecided |
| Setup.Determine | dominoes.py:52-69 | the loop's result is the opening: the highest double moved from the hand holding it into the snake, with the other side to move |
| Strategy.TallyValues | dominoes.py:135-142 | `number_score[v]` is the number of halves showing `v` over the computer's hand and the snake |
| Strategy.ScoreTiles | dominoes.py:143-144 | each hand tile's score is the tally of its first value plus the tally of its second |
| Strategy.InsertKeepsSorted | dominoes.py:145 | inserting a later index after all indices of at least its score keeps the ranking sorted |
| Strategy.RankIsSorted | dominoes.py:145 | the ranking is in descending score order, ties in ascending hand position |
| Strategy.SortedIsUnique | dominoes.py:145 | two orders of the same indices that both follow that order are equal |
| Strategy.Ranked | dominoes.py:145 | the ranking holds every hand index and is in descending score order, ties in ascending hand position |
| Strategy.RankedIsTheOrder | dominoes.py:145 | any order of all the hand indices that is descending by score and stable is the ranking: it is the only such order |
| Strategy.FitPosition | dominoes.py:148-164 | the position found is the first in the order whose tile touches either end |
| Strategy.FirstFit | dominoes.py:148-164 | a right placement uses a tile touching the right end; a left placement one touching the left end but not the right |
| Strategy.PickTile | dominoes.py:148-164 | the loop over the ranked tiles returns the first fitting tile, on the right end whenever it touches it |
| Strategy.FirstFitIsBest | dominoes.py:148-164 | in a sorted order of all tiles, every tile ranked ahead of the chosen one fits neither end, and none fits when nothing is chosen |
| Strategy.ComputerChoice | dominoes.py:135-164 | a right placement names a hand tile touching the right end; a left placement one touching the left end only |
| Strategy.ComputerChoiceIsBest | dominoes.py:135-164 | the computer places the highest-scoring fitting tile, ties to the earlier hand position, on the right end when it touches it; it places nothing only when no tile fits either end |
| Strategy.ChooseMove | dominoes.py:135-164 | tally, score, rank and search together compute the computer's choice |
| Game.ConservedIsDistinct | dominoes.py:5-12 | while the set is conserved, no container holds a tile twice, even up to orientation, and neither hand holds the same list twice |
| Game.ScoreKeyIsPosition | dominoes.py:144 | while the set is conserved, `computer_hand.index(domino)` for the tile at position `i` is `i`, so the score table is keyed by hand position |
| Game.OpeningIsConserved | dominoes.py:16-18 | dealing a shuffled copy of the full set and making the opening gives a conserved game |
| Game.PlayerDrawKeepsHeld | dominoes.py:103-105 | moving a pool tile to the end of the player's hand keeps the tiles held |
| Game.ComputerDrawKeepsHeld | dominoes.py:166-168 | moving a pool tile to the end of the computer's hand keeps the tiles held |
| Game.PlayerLeftKeepsHeld | dominoes.py:107-114 | placing a player tile on the left end keeps the tiles held |
| Game.PlayerRightKeepsHeld | dominoes.py:117-124 | placing a player tile on the right end keeps the tiles held |
| Game.ComputerLeftKeepsHeld | dominoes.py:157-164 | placing a computer tile on the left end keeps the tiles held |
| Game.ComputerRightKeepsHeld | dominoes.py:149-156 | placing a computer tile on the right end keeps the tiles held |
| Game.Game.constructor | dominoes.py:15-18 | a game is built from a conserved, chained table |
| Game.Game.PlayerMove | dominoes.py:100-128 | `abs(choice)` above the hand size is invalid and changes nothing. 0 moves one pool tile to the end of the hand when the pool is non-empty and passes the turn. A signed index is legal exactly when the tile touches that end: it then leaves the hand, joins the snake turned to match, and passes the turn; otherwise it is illegal and changes nothing. Adjacency is kept |
| Game.Game.ComputerMove | dominoes.py:131-169 | the computer's choice is placed on the end it names, turned to match, and the turn passes. With no fit, one pool tile moves to the computer's hand and the turn passes, or with an empty pool nothing changes and the status is undecided. Adjacency is kept and the snake stays non-empty |
| Game.Deal | dominoes.py:16-18 | dealing and opening from a shuffled full set leaves 14 tiles in the pool and a conserved, chained game. The sizes are 6/7 with a double snake when the computer moves first, 7/6 when the player does, and 7/7 with an empty snake when undecided |
| Game.Start | dominoes.py:16-20 | the set-up `main` performs yields a conserved, chained game with 14 tiles left in the pool. The status says who moves first: the computer (player 6 tiles, computer 7, a double snake), the player (7 and 6, a double snake), or undecided when no double was dealt (7 and 7, empty snake), on which `main` starts over |
| Ending.CheckWin | dominoes.py:172-187 | an empty player hand wins for the player, before anything else. Otherwise an empty computer hand wins for the computer. Otherwise it is a draw exactly when the snake's ends are equal and the running count of that value reaches 8 at some tile; in every other case play continues |
| Ending.ReachesEightIffAll | dominoes.py:181-185 | when the snake shows a value at most 8 times, the running count reaches 8 exactly when the whole snake shows it 8 times |
| Ending.ConservedShowsEight | dominoes.py:5-12 | while the set is conserved, the four containers together show every value exactly 8 times |
| Ending.SnakeShowsAtMostEight | dominoes.py:181-185 | while the set is conserved, the snake shows a value at most 8 times, and the pool and hands show the rest |
| Ending.DrawIsClosedOnEight | dominoes.py:181-187 | in a conserved game with a closed snake, the draw is declared exactly when the snake shows all 8 halves of its end value |
| Ending.DrawIsBlocked | dominoes.py:181-187 | when a draw is declared, no tile in either hand or the pool touches either end of the snake |

## Left out

- Randomness.
  - `random.shuffle` in `reset` becomes caller-supplied Fisher-Yates picks (`picks[i] <= i`).
  - The shuffle-then-`pop` draw in `player_move` and `computer_move` becomes removal at a caller-supplied pool index `drawAt`.
  - The order of the rest of the pool after a draw is not modelled, since every later draw reshuffles it.
- Reading and parsing input.
  - `input()` and `int()` in `player_move` (dominoes.py:91-98) are left out; the command arrives as the integer `choice`.
  - The re-prompt loop is the `Invalid` or `Illegal` reply with nothing changed.
- Output.
  - `print_field` and every `print` are left out: they are console output.
  - `sys.exit` in `check_win` is replaced by the returned `Outcome`.
- `main`'s interactive loop and its recursive restart when no double is dealt (dominoes.py:15-30) are process plumbing.
  - `Start` models one set-up, and `Deal` reports the undecided state the restart follows.
  - The computer's empty-pool "no move" returns the undecided status, as the code does. `main`'s `else` branch then gives the computer another turn instead of passing to the player. The model follows the code.
- Aliasing.
  - `list.reverse()` in the source turns a tile list in place, and the tile lists are shared with `DOMINOS` itself.
  - Tiles are values here, so turning one changes nothing else. Because conservation is stated up to orientation, this has no effect on the properties above.
- Game.Game.Valid: the class invariant is adjacency only. Conservation of the tile set is not part of it:
  - `Start` proves it for a new game;
  - the six `...KeepsHeld` lemmas prove that each transition `PlayerMove` and `ComputerMove` performs keeps it.
- Game.Game.PlayerMove: requires a non-empty snake for a placement, which holds in every game `main` plays because the opening puts one double in it.
- Ending.CheckWin: requires a non-empty snake when both hands hold tiles, since the source reads `snake_tiles[0]` there.
- The draw rule counts the halves showing the end value over the snake. In a conserved game this is the same as "the closed snake shows all 8 halves of that value" (`Ending.DrawIsClosedOnEight`). A closed snake of a few tiles that shows a value only four times, or that holds a tile twice, is not a draw under the code.
