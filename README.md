# Zone Wreck and the crosscut detector, modelled in Dafny

This project models two small Python programs and proves properties of them.

**Zone Wreck** (`zonewreck.py`) is a two-player game on an 8×8 board.
- The board holds references to pieces. Each piece has:
  - a power `P`;
  - the stats attack `A`, health `H`, speed `S` and distance `D`;
  - a colour;
  - a recorded position.
- Each player has a reserve of points (140 at the start) and a list of live pieces.
- The game remembers whose turn it is.
- A piece is placed on its owner's zone, which is the owner's home row: row 7 for White, row 0 for Black. Placing it costs `A + H + S + D` from the reserve.
- A piece moves at most `D` rows and `D` columns.
  - Onto an empty cell it moves only forward: White towards row 0, Black towards row 7. Entering the other colour's zone this way costs the opponent `A` points of reserve.
  - Onto an enemy piece it may move in any direction, and a combat follows.
  - It never moves onto a piece of its own colour.
- Combat happens in rounds. The faster piece strikes first, and the mover strikes first on a tie. Each strike subtracts the striker's attack from the other's health, and the first health that falls to zero or below loses.
- When a turn ends with the current player's reserve at zero or below, the opponent wins. Otherwise the turn passes.

**The crosscut detector** (`docs/resolve/correct_crosscut_counting.py`) scans a square grid of integers.
- A crosscut is a 2×2 block whose cells sum to 2 and whose two diagonals are each constant. On a 0/1 grid this means `[[1,0],[0,1]]` or `[[0,1],[1,0]]`.
- Each crosscut is recorded as a pair of diagonal cells: the main diagonal `((i, j), (i+1, j+1))` when the top-left cell holds 1, and the anti-diagonal `((i, j+1), (i+1, j))` otherwise. On a 0/1 grid these are the block's two 1-cells. On other integer grids they need not be: `[[2,-1],[-1,2]]` passes the test and is recorded by its two −1 cells.
- The resolution loop works as follows:
  1. It offers the player's stones that occur in a crosscut (the "resolving stones"), then reads one.
  2. It offers the cells holding the other value (`1 - player`) from the crosscuts that contain that stone (the "enemies"), then reads one.
  3. It swaps the two cells and rescans.
- Step 3 is never reached on any integer grid. The crosscut test forces each diagonal of the block to be constant, so both cells of a recorded pair hold the same value. A resolving stone holds `player` and an enemy holds `1 - player`, so no crosscut holds both, and every resolving stone has an empty enemy list. The loop therefore always stops at step 2 (or earlier), and the grid is never changed. The members that describe the swap (`CanSwap`, `OfferedPairCanSwap`, `ReplayExtend`, `ApplySwap`, the accepting branch of `PromptRound`) model the code of that dead branch as written; `NoSwapAnyGrid`, `ReplayNeverSwaps` and `RunKeepsGrid` state that it is dead.

The files:
- `grids.dfy` (module `Grids`): board contents as `seq<seq<T>>`, the cell update `Put`, and `FromArray`, which reads a two-dimensional array as such a value.
- `combat.dfy` (module `CombatRules`): the round-by-round fight as a function on values, with its damage and termination lemmas.
- `zonewreck.dfy` (module `ZoneWreck`): the classes `Piece`, `Player` and `Game`, whose methods update fields, the board array and the piece lists in place, as the Python objects do.
- `crosscut.dfy` (module `CrosscutCounting`):
  - specification functions for the scan, the resolving stones and the enemy candidates;
  - the loops of the source as methods proved against those functions;
  - the in-place swap;
  - the resolution loop, which takes its answers from a sequence.

The model follows the code as written, including where it departs from the game's evident intended rules:
- **Zone.** The zone a player places on is its own home row, which is also the row its opponent's pieces invade. It is not the edge row on the opponent's side.
- **Placement.** Placement never checks that the cell is empty. A piece already there is overwritten on the board and stays in its owner's list.
- **Winning mover.** A mover that wins a combat is put on the destination, but its old cell is not cleared and its recorded position is not updated. It then stands on two cells.
- **End of game.** Only the reserve of the player whose turn ends is looked at.
- **Combat termination.** Combat ends exactly when `CombatRules.Terminates` holds: some attack is positive, or a first-round strike already knocks a side out. This is wider than "both attacks are positive". Otherwise the loop never exits.

## Model

| member | source | states |
|---|---|---|
| ZoneWreck.IsInZone | zonewreck.py:69-75 | A position is in a colour's zone iff the colour is White and the row is 7, or the colour is Black and the row is 0. |
| ZoneWreck.ZonesDisjoint | zonewreck.py:69-75 | No cell is in both zones, and changing the column never changes zone membership. |
| ZoneWreck.Other | zonewreck.py:48 | The opposite colour differs from the given one. |
| ZoneWreck.PlacementPosition | zonewreck.py:165-166 | The placement cell keeps the chosen column and always lies in the placing colour's zone. |
| ZoneWreck.StatAllowed | zonewreck.py:212 | A stat value is accepted by the stat prompt iff it lies between 0 and what is left of the budget `4 × P`. `PromptedStatsWithinBudget` relates it to the budget test. |
| ZoneWreck.WithinBudget | zonewreck.py:162 | The placement budget test: the four stats sum to at most `4 × P`. |
| ZoneWreck.Forward | zonewreck.py:96-99 | The direction rule for empty destinations: a White move must decrease the row and a Black move must increase it. `IsValidMove` states its use. |
| ZoneWreck.PromptedStatsWithinBudget | zonewreck.py:158-164 | Four stats, each accepted by the stat prompt's bound against what is left of `4 × P`, are all non-negative and always pass the budget test `A + H + S + D <= 4 × P`. |
| ZoneWreck.RemoveFirst | zonewreck.py:37 | `list.remove`: the result is one element shorter and its multiset is the original's minus one occurrence of the element. |
| ZoneWreck.IndexOf | zonewreck.py:37 | The index returned holds the element, and no earlier index does. |
| ZoneWreck.Piece.constructor | zonewreck.py:1-9 | A new piece has the given stats and colour and no position. |
| ZoneWreck.Player.constructor | zonewreck.py:11-15 | A new player has the given colour, a reserve of 140 and no pieces. |
| ZoneWreck.Player.AddPieceToZone | zonewreck.py:17-24 | Succeeds iff the position is in the player's zone. On success: the piece's position is set, the board equals the old board with that cell holding the piece (whatever was there), the piece is appended to the list, and the reserve drops by exactly `A + H + S + D`. On failure nothing changes. |
| ZoneWreck.Player.MovePiece | zonewreck.py:27-55 | An illegal move changes nothing and returns `Invalid`: the board, the lists, the reserves, the mover's position and health, and the occupant's health are all kept. A legal move onto an empty cell satisfies `EnteredEmpty`, and one onto an enemy satisfies `Captured`. The mover's reserve never changes, the destination occupant's recorded position never changes, and the turn and the players stay the same. |
| ZoneWreck.Player.EnterEmpty | zonewreck.py:46-53 | The origin cell becomes empty, the destination holds the piece, and the recorded position is the destination. The opponent's reserve drops by exactly `A` iff the destination is in the other colour's zone. Health and both piece lists are unchanged. |
| ZoneWreck.Player.Capture | zonewreck.py:31-44 | Both healths are the combat's final ones, and no reserve or position changes. A losing mover is removed from its list (first occurrence) and its recorded cell is cleared. A winning mover is added to its list if missing, the defender is removed from the opponent's list, and the destination holds the mover while the origin is left as it was. When the element to remove is not in its list, `ListRemoveFailed` is returned with the board unchanged. |
| ZoneWreck.Game.constructor | zonewreck.py:61-64 | The board is 8×8 and empty, both players have reserve 140 and no pieces, and White is to play. |
| ZoneWreck.Game.Opponent | zonewreck.py:221-222 | The opponent is the other one of the two players and has the other colour. |
| ZoneWreck.Game.SwitchTurn | zonewreck.py:66-67 | The player to move becomes the old opponent, and the opponent becomes the old player to move. |
| ZoneWreck.Game.IsValidMove | zonewreck.py:82-108 | A move farther than `D` on either axis is illegal whatever the destination holds. Within range, a move onto an empty cell is legal iff it is forward for the piece's colour (so never sideways), and a move onto an occupied cell is legal iff the occupant has the other colour. |
| ZoneWreck.Game.OwnCellNeedsEnemy | zonewreck.py:94-108 | With `D >= 0`, moving onto the piece's own recorded cell is legal iff an enemy stands there, so it is illegal while the piece occupies that cell. |
| ZoneWreck.Game.Combat | zonewreck.py:112-138 | Changes only the two healths and returns the winner. The winner and both final healths are exactly those of `CombatRules.Resolve` on the two pieces before the fight. |
| ZoneWreck.Game.EndTurn | zonewreck.py:200-206 | If the current player's reserve is at most 0, the opponent's colour wins and the turn does not pass. Otherwise there is no winner and the turn passes to the opponent. |
| CombatRules.MoverStrikesFirst | zonewreck.py:114-118 | The mover strikes first iff its speed is at least the defender's. |
| CombatRules.Terminates | zonewreck.py:120-138 | The exact condition under which the source's combat loop exits: some attack is positive, or a strike in the first round already knocks out its target. `StalemateNeverEnds` proves the converse. |
| CombatRules.Ordered | zonewreck.py:114-118 | The two sides in striking order: the mover first iff `MoverStrikesFirst` holds. |
| CombatRules.CombatEnds | zonewreck.py:112-138 | A combat between a mover and a defender ends iff `Terminates` holds of the sides in striking order. |
| CombatRules.Resolve | zonewreck.py:112-138 | The outcome of `Fight` seen from the mover and the defender. `ResolveDamage` states its exact damage and that the loser is knocked out. |
| CombatRules.Fight | zonewreck.py:120-138 | The fight lasts at least one round. |
| CombatRules.FightDamage | zonewreck.py:121-138 | In a fight ending in round k, the second striker lost exactly k blows of the first's attack. The first striker lost k - 1 blows if it won and k blows if it lost. |
| CombatRules.FightStopsAtFirstKnockout | zonewreck.py:124-136 | The loser's health is at most 0, and a second striker that wins survived the first blow of the last round. After every earlier round both healths were still positive. |
| CombatRules.StalemateNeverEnds | zonewreck.py:121-138 | When `Terminates` fails, both healths stay positive after every round, so the loop never exits. |
| CombatRules.ResolveDamage | zonewreck.py:112-138 | In mover and defender terms: who strikes first follows the speeds, each side loses the exact number of blows from the other, and the loser ends at health 0 or below. |
| CrosscutCounting.IsCrosscutAt | docs/resolve/correct_crosscut_counting.py:9-11 | The test applied to the 2×2 block at (i, j): its four cells sum to 2 and both diagonals are constant. `CrosscutPatterns` gives what it means on a 0/1 grid. |
| CrosscutCounting.PairAt | docs/resolve/correct_crosscut_counting.py:12 | The pair recorded for the block at (i, j): its main diagonal when the top-left cell is 1, its anti-diagonal otherwise. `ReportedPairIsOnes` gives what it means on a 0/1 grid. |
| CrosscutCounting.Crosscuts | docs/resolve/correct_crosscut_counting.py:3-13 | Every cell of every recorded pair lies in the grid. |
| CrosscutCounting.CrosscutsSound | docs/resolve/correct_crosscut_counting.py:7-12 | There are at most (n - 1)² crosscuts. Each is the recorded pair of a crosscut block, and they are strictly increasing in row-major order of their blocks, so there is no repetition. |
| CrosscutCounting.RowCrosscutsSound | docs/resolve/correct_crosscut_counting.py:8-12 | The first j blocks of a block row give at most j pairs, each from a crosscut block of that row left of column j, left to right. |
| CrosscutCounting.CrosscutsBeforeSound | docs/resolve/correct_crosscut_counting.py:7-12 | The first i block rows give at most i·(n - 1) pairs, each from a crosscut block above row i, in row-major order. |
| CrosscutCounting.RowCrosscutsComplete | docs/resolve/correct_crosscut_counting.py:8-12 | Every crosscut block among the first j of a block row has its pair listed. |
| CrosscutCounting.CrosscutsBeforeComplete | docs/resolve/correct_crosscut_counting.py:7-12 | Every crosscut block above row i has its pair listed. |
| CrosscutCounting.CrosscutsExact | docs/resolve/correct_crosscut_counting.py:7-12 | A block's pair is listed iff the block passes the crosscut test. |
| CrosscutCounting.CrosscutPatterns | docs/resolve/correct_crosscut_counting.py:10-11 | On a 0/1 grid the crosscut test holds iff the block is `[[1,0],[0,1]]` or `[[0,1],[1,0]]`. |
| CrosscutCounting.ReportedPairIsOnes | docs/resolve/correct_crosscut_counting.py:12 | On a 0/1 grid a recorded pair is exactly the two 1-cells of its block: both hold 1 and the block's other two cells hold 0. |
| CrosscutCounting.CrosscutCellsAreOnes | docs/resolve/correct_crosscut_counting.py:12 | On a 0/1 grid every cell of every crosscut holds 1. |
| CrosscutCounting.GetCrosscuts | docs/resolve/correct_crosscut_counting.py:3-13 | The nested scan returns exactly `Crosscuts` of the array's contents. |
| CrosscutCounting.ScanBlockRow | docs/resolve/correct_crosscut_counting.py:8-12 | The inner loop appends exactly the crosscuts of one block row, left to right. |
| CrosscutCounting.CountCrosscuts | docs/resolve/correct_crosscut_counting.py:15-18 | The count is the number of crosscuts and is at most (n - 1)². |
| CrosscutCounting.ResolvingStones | docs/resolve/correct_crosscut_counting.py:21-28 | A cell is a resolving stone iff it occurs in some crosscut and holds `player`. |
| CrosscutCounting.GetResolvingStones | docs/resolve/correct_crosscut_counting.py:21-28 | The loop collects exactly `ResolvingStones` of the array's contents. |
| CrosscutCounting.Enemies | docs/resolve/correct_crosscut_counting.py:53 | A cell is an enemy candidate of a stone iff some crosscut contains both and the cell holds `1 - player`. |
| CrosscutCounting.StonesOfOnes | docs/resolve/correct_crosscut_counting.py:21-28 | When every crosscut cell holds 1, resolving stones exist only for player 1. |
| CrosscutCounting.EnemiesOfOnes | docs/resolve/correct_crosscut_counting.py:53 | When every crosscut cell holds 1, enemy candidates exist only for player 0. |
| CrosscutCounting.StonesAndEnemiesExclusive | docs/resolve/correct_crosscut_counting.py:40-66 | On a 0/1 grid, resolving stones and enemy candidates are never both present, whatever stone is chosen. |
| CrosscutCounting.SwapCells | docs/resolve/correct_crosscut_counting.py:32-34 | The two cells exchange values and every other cell is unchanged. |
| CrosscutCounting.SwapTwiceRestores | docs/resolve/correct_crosscut_counting.py:32-34 | Swapping the same two cells twice restores the grid. |
| CrosscutCounting.SwapKeepsShape | docs/resolve/correct_crosscut_counting.py:32-34 | A swap keeps the grid square, and keeps a 0/1 grid 0/1. |
| CrosscutCounting.SwapKeepsSum | docs/resolve/correct_crosscut_counting.py:32-34 | A swap leaves the sum of all cells unchanged. |
| CrosscutCounting.Swap | docs/resolve/correct_crosscut_counting.py:32-34 | The array's new contents are `SwapCells` of the old ones. |
| CrosscutCounting.CanSwap | docs/resolve/correct_crosscut_counting.py:45-64 | A swap the resolution loop permits on a grid: the stone is one of the player's resolving stones, and the enemy is one of that stone's enemy candidates. No grid permits one (`NoSwapAnyGrid`). |
| CrosscutCounting.Replay | docs/resolve/correct_crosscut_counting.py:39-68 | Replays a sequence of swaps from a grid, one at a time. It yields the resulting grid when each swap is permitted on the grid before it, and nothing otherwise. |
| CrosscutCounting.OfferedPairCanSwap | docs/resolve/correct_crosscut_counting.py:49-64 | An offered resolving stone together with one of its offered enemies is a permitted swap. Line 64 is never reached on any integer grid, so this covers a dead branch. |
| CrosscutCounting.ReplayExtend | docs/resolve/correct_crosscut_counting.py:64-68 | A history that replays to a grid, extended by a swap permitted on that grid, replays to the swapped grid. No swap is ever permitted (line 64 is a dead branch), so this case never arises. |
| CrosscutCounting.ReportedPairSameValue | docs/resolve/correct_crosscut_counting.py:10-12 | On any integer grid, the two cells of a recorded pair hold the same value. |
| CrosscutCounting.EqualPairsHaveNoEnemies | docs/resolve/correct_crosscut_counting.py:53 | When both cells of every pair hold the same value, a cell holding `player` has no enemy candidates in those pairs. |
| CrosscutCounting.ResolvingStoneHasNoEnemies | docs/resolve/correct_crosscut_counting.py:49-53 | On any square grid, every resolving stone has an empty list of enemy candidates. |
| CrosscutCounting.NoSwapAnyGrid | docs/resolve/correct_crosscut_counting.py:49-64 | On any square grid, no stone and enemy form a permitted swap, so the swap at line 64 is unreachable. |
| CrosscutCounting.ReplayNeverSwaps | docs/resolve/correct_crosscut_counting.py:36-70 | From any square grid the empty history replays to the grid itself and every non-empty history fails to replay. |
| CrosscutCounting.PromptRound | docs/resolve/correct_crosscut_counting.py:40-62 | One pass of the prompts, exactly. It stops iff: there are no resolving stones; or no answer is left; or the answered stone is offered and either has no enemy or no answer follows it. It then reports that reason: `NoResolvingStones`, `NoEnemies` of the answered stone, or `InputExhausted` with every answer read, and the reason holds of the grid. Otherwise it moves past one answer for a rejected stone and past two for an answered enemy, and accepts the pair iff both answers are offered; an accepted pair is a permitted swap. Acceptance never happens on any integer grid (line 64 is a dead branch), so that arm covers dead code. In every case the pass is one step of `Run`. |
| CrosscutCounting.ApplySwap | docs/resolve/correct_crosscut_counting.py:64 | Performs a permitted swap in place and extends the history, which still replays to the current grid. It models line 64, which is never reached on any integer grid. |
| CrosscutCounting.AnsweredBy | docs/resolve/correct_crosscut_counting.py:45-64 | Records where each swap's answers came from: each swap is the stone at some answer position and the enemy at the next position, within the answers read. Later swaps come from later, non-overlapping positions. |
| CrosscutCounting.AnsweredByExtend | docs/resolve/correct_crosscut_counting.py:56-64 | An accepted pair of answers at the next two positions extends the record by one swap. |
| CrosscutCounting.AnsweredByLater | docs/resolve/correct_crosscut_counting.py:45-62 | Reading more answers keeps the record valid. |
| CrosscutCounting.Stopped | docs/resolve/correct_crosscut_counting.py:39-66 | What each way of stopping means for the grid left behind. `NoCrosscuts`: no crosscut is left. Otherwise crosscuts remain, and: `NoResolvingStones`: the player has no stone in any of them. `NoEnemies`: the chosen stone is a resolving stone without enemy candidates. `InputExhausted`: resolving stones are still offered. |
| CrosscutCounting.Run | docs/resolve/correct_crosscut_counting.py:36-70 | The resolution loop on grid values, answer by answer: stop on no crosscuts, no resolving stones, a stone without enemies or no answer left; skip one answer for a rejected stone and two for a rejected enemy; otherwise swap and rescan. |
| CrosscutCounting.RunStops | docs/resolve/correct_crosscut_counting.py:36-70 | Every run ends on a square grid, for a reason that holds of that grid as `Stopped` states. |
| CrosscutCounting.RunKeepsGrid | docs/resolve/correct_crosscut_counting.py:36-70 | A run from any square grid returns that grid unchanged. |
| CrosscutCounting.Resolve | docs/resolve/correct_crosscut_counting.py:36-70 | The outcome and the final grid are exactly `Run` from the initial grid with all the answers. The final grid satisfies `Stopped` for that outcome. Replaying the recorded swaps from the initial grid, each permitted when it was made, yields the final grid. Each swap came from two consecutive answers, in the order they were read, with no answer used twice. Stopping for lack of answers means all of them were read. On every input no swap is made (line 64 is never reached) and the array is left unchanged. |

## Left out

- The interactive parts of `play` (zonewreck.py:142-197): the console prompts, the retry loops and the reading of piece coordinates. The operations they call are modelled one by one. The rule that a turn has at most one placement (the loop breaks after a successful placement, lines 168-169) and at most one move is a property of those loops. It is not stated by any member.
- A whole turn as a single step. Whether a move's combat terminates (`CombatEnds`) depends on the board left by that turn's optional placement, so it is not stated up front. `EndTurn` models the end-of-turn check by itself (lines 200-206).
- `get_stat_input` (zonewreck.py:208-217), which is console input. Only its acceptance bound is kept, as `StatAllowed`.
- `display_board`, every `print`, and the module-level code (zonewreck.py:224-231; docs/resolve/correct_crosscut_counting.py:73-87), including the random grid generator. These are output and randomness.
- Out-of-board indices. `AddPieceToZone`, `MovePiece` and `IsValidMove` require every position to lie on the board. Python would raise `IndexError` for rows or columns of 8 and above, and would wrap negative indices around.
- Combat that never ends. `Game.Combat`, and `MovePiece` when it leads to combat, require `CombatEnds`. `CombatRules.StalemateNeverEnds` shows that without it the source's loop never exits.
- Text parsing in `resolve`. The answers are given as a finite sequence of cells. Running out of answers is the extra outcome `InputExhausted`. Malformed answer text and tuples of another length are not modelled.
- The order of `get_resolving_stones`' result. It returns `list(set(...))`, whose order Python does not define. `GetResolvingStones` returns the set itself.
- numpy. The grid is an `array2<int>` read cell by cell: a 2×2 slice becomes four cell reads and `np.sum` an explicit sum. Cell values are arbitrary integers. The no-swap results (`ReportedPairSameValue`, `EqualPairsHaveNoEnemies`, `ResolvingStoneHasNoEnemies`, `NoSwapAnyGrid`, `ReplayNeverSwaps`, `RunKeepsGrid`, `Resolve`) hold on every integer grid. Only the statements about the 0/1 patterns (`CrosscutPatterns`, `ReportedPairIsOnes`, `CrosscutCellsAreOnes`, `StonesAndEnemiesExclusive` and the second half of `SwapKeepsShape`) assume `IsBinary`.
- Python object identity. `winner == enemy_piece`, `in` and `list.remove` compare pieces by identity, because `Piece` defines no equality. The model compares references.
- The players list of `Game`. It is represented by the two fields `white` and `black`, and `current_turn` always refers to one of them.
