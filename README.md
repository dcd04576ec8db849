# BoardModel of the Pokemon game, in Dafny

The Pokemon game is a Minesweeper variant. An n-by-n board of cell symbols
hides a fixed list of pokemon, recorded by their row-major linear indices
`x * n + y`. Play works as follows:

- A left click on a pokemon loses the game and shows every pokemon.
- A left click elsewhere shows how many pokemon hide in the eight cells
  around. A cell with count zero floods outwards through its four side
  neighbours (`extend_zero`).
- A right click puts a catch (the flag "♥") on a "~" cell or takes it off
  again. It keeps the counter `left_pokemon` and the list `hidden_pokemon`
  of pokemon not yet flagged.
- The game is won when no pokemon is hidden and no flag is left.

The project models the class `BoardModel` and the level choice of
`new_game`. It proves:

- the index/position arithmetic;
- the neighbour count;
- `WellFormed`, kept by every operation, and the flag bookkeeping
  `FlagsConsistent`, kept while the game is played (not across a win or a
  loss);
- what the flood fill may and must change, and that it terminates;
- the win condition.

Layout (one module per file):

- `geometry.dfy`, module `Geometry`: `position_to_index`,
  `index_to_position` and `is_on_board`, with their round trips.
- `counting.dfy`, module `Counting`: `calculate_count` and its meaning as
  the number of on-board neighbours holding a pokemon.
- `board.dfy`, module `Board`:
  - the cell symbols and the state as a value;
  - the invariants `WellFormed` (always kept) and `FlagsConsistent` (the
    flag bookkeeping while a game is played);
  - the transitions of `right_click`, `check_win` and `reset_game` as
    functions, with lemmas about them.
- `flood.dfy`, module `Flood`: the recursion of `left_click` and
  `extend_zero` on board values, specified by three relations between the
  board before and after:
  - `Reveals`: only "~" cells change, each into its own count, never on a
    pokemon;
  - `FloodClosed`: no cell newly shown as "0" keeps a "~" side neighbour;
  - `Spreads`: every changed cell lies in the seeds' connected region.
    That region is what can be reached from the seeds by steps from a
    cell newly shown as "0" to one of its four side neighbours. A
    separate area of zeros that this region does not reach stays "~".
- `model.dfy`, module `Model`: the class `BoardModel`. Its methods update
  the board, the counters and the latches in place, and are proved against
  the functions above.
- `levels.dfy`, module `Levels`: how the dialog answer becomes a level,
  and the board size and pokemon count it gives.

The symbols are `Unexposed` for "~", `Flag` for "♥", `PokemonMark` for "☺"
and `Digit(k)` for `str(k)`. The exposed symbol `EXPOSED = "0"` is `Digit(0)`.

## Model

| member | source | states |
|---|---|---|
| Geometry.IsOnBoard | Pokemon.py:148-160 | is_on_board: holds exactly when 0 <= x < n and 0 <= y < n, which only a non-empty board allows |
| Geometry.PositionToIndex | Pokemon.py:283-292 | position_to_index maps an on-board position to an index in [0, n*n) |
| Geometry.IndexToPosition | Pokemon.py:294-302 | index_to_position gives a column in [0, n), and an on-board position for every index in [0, n*n) |
| Geometry.PositionRoundTrip | Pokemon.py:283-302 | an on-board position has an index in [0, n*n), and index_to_position gives the position back |
| Geometry.IndexRoundTrip | Pokemon.py:283-302 | every index in [0, n*n) names an on-board position, and position_to_index gives the index back |
| Geometry.IndexInjective | Pokemon.py:283-291 | distinct on-board positions have distinct indices |
| Geometry.DivModUnique | Pokemon.py:294-302 | floor division and modulo by a positive grid size are determined by `i == q*n + r, 0 <= r < n` |
| Counting.IsPoke | Pokemon.py:188-192 | is_poke: the position is on the board (so the board is non-empty) and its index is in the placement |
| Counting.CalculateCount | Pokemon.py:175-210 | the eight is_poke tests in the source's order; it requires the cell itself not to be a pokemon (the assert at line 186) and the count is at most 8 |
| Counting.CountIsPokemonAround | Pokemon.py:175-210 | calculate_count equals the number of on-board king-move neighbours whose index is in the pokemon list |
| Counting.CountZeroIff | Pokemon.py:175-210 | a count of zero holds exactly when no cell of the three-by-three square around the position holds a pokemon |
| Counting.HitsIsCardinality | Pokemon.py:197-210 | counting hits along a list of distinct positions gives the size of the set of positions holding a pokemon |
| Board.Blank | Pokemon.py:66 | the initial displayBoard is n by n and every cell shows "~" |
| Board.Write | Pokemon.py:304-311 | set_item changes cell (x, y) to the symbol and no other cell |
| Board.MarkPokemon | Pokemon.py:313-319 | after show_all_pokemon every pokemon cell shows the pokemon (a flag is overwritten too) and every other cell keeps its symbol |
| Board.MarkOneMore | Pokemon.py:317-319 | marking one more index of the list is one more set_item at index_to_position of it |
| Board.RemoveFirst | Pokemon.py:246-247 | list.remove drops one occurrence of the value: the multiset loses exactly that value and other members stay |
| Board.RemoveFirstDistinct | Pokemon.py:246-247 | on a list without repetitions, remove takes the value out entirely and keeps the list without repetitions |
| Board.PlacementFits | Pokemon.py:119-130 | the assertion num_pokemon <= grid_size ** 2 holds for every placement random.sample can deliver |
| Board.InitialGame | Pokemon.py:48-73 | the state __init__ produces (and reset_game, lines 162-173, restores): an n-by-n board of "~", hidden_pokemon holding the placement, left_pokemon == num_pokemon, state and isWorking on, no loss |
| Board.InitialGameInvariants | Pokemon.py:48-73 | the state __init__ and reset_game produce is well formed and keeps the flag bookkeeping: no flags, left_pokemon == num_pokemon, hidden_pokemon is the whole placement |
| Board.MarkKeepsWellFormed | Pokemon.py:313-319 | show_all_pokemon keeps every symbol truthful |
| Board.RightClickKeepsWellFormed | Pokemon.py:232-253 | right_click keeps every symbol truthful and every unexposed pokemon in hidden_pokemon, so `hidden_pokemon.remove` never fails |
| Board.PlaceFlagKeepsWellFormed | Pokemon.py:241-247 | flagging a "~" cell keeps every symbol truthful and every other unexposed pokemon in hidden_pokemon |
| Board.TakeFlagKeepsWellFormed | Pokemon.py:248-253 | unflagging keeps every symbol truthful and every unexposed pokemon in hidden_pokemon |
| Board.FlagIndicesAdd | Pokemon.py:242-243 | flagging a non-flag cell adds exactly its index to the set of flagged indices |
| Board.FlagIndicesRemove | Pokemon.py:249-250 | unflagging a flag cell removes exactly its index from the set of flagged indices |
| Board.PlaceFlag | Pokemon.py:241-247 | the flagged cell shows the flag and no other cell changes; left_pokemon drops by one; a pokemon index leaves hidden_pokemon exactly once (as a multiset) and a non-pokemon index leaves it as it is; the latches are unchanged |
| Board.TakeFlag | Pokemon.py:248-253 | the cell shows "~" again and no other cell changes; left_pokemon rises by one; a pokemon index is added to hidden_pokemon once (as a multiset) and a non-pokemon index leaves it as it is; the latches are unchanged |
| Board.RightClickSpec | Pokemon.py:232-253 | right_click: nothing when not working or on a symbol other than "~" and the flag. On a flag the cell shows "~" and left_pokemon rises. On "~" left_pokemon drops, and the cell shows the flag unless the flag wins (then isWorking is off, nothing is hidden and no flag is left). While the game goes on no other cell changes; state and loss never change |
| Board.CheckWinSpec | Pokemon.py:321-331 | check_win reports a win exactly when hidden_pokemon is empty, left_pokemon is 0 and state holds. A win shows every pokemon, keeps every other cell and stops the board. Otherwise nothing changes |
| Board.PlaceFlagKeepsConsistent | Pokemon.py:241-247 | flagging a "~" cell keeps left_pokemon == num_pokemon − #flags and hidden_pokemon == the unflagged pokemon, listed once each |
| Board.TakeFlagKeepsConsistent | Pokemon.py:248-253 | unflagging keeps the same bookkeeping |
| Board.RightClickKeepsConsistent | Pokemon.py:232-253 | right_click keeps the flag bookkeeping unless its flag wins the game (then show_all_pokemon has overwritten the flags) |
| Board.FlagThenUnflag | Pokemon.py:241-253 | flagging a "~" cell and clicking it again restores the board, left_pokemon and hidden_pokemon as a multiset; if the flag won, the second click does nothing |
| Board.WinCondition | Pokemon.py:321-331 | under the bookkeeping, "no pokemon hidden and no flag left" holds exactly when the flagged cells are the pokemon cells |
| Board.WonFlagsArePokemon | Pokemon.py:321-331 | when check_win's test holds, a cell is flagged exactly when it holds a pokemon |
| Board.FlagsArePokemonWon | Pokemon.py:321-331 | when the flagged cells are exactly the pokemon cells, check_win's test holds |
| Board.OverFlagging | Pokemon.py:241-243 | left_pokemon is not bounded below: one flag on a board without pokemon takes it to -1 |
| Board.FlagTheOnlyPokemon | Pokemon.py:232-247 | on a 3-by-3 board whose only pokemon is in the centre, flagging the centre wins: the board stops, left_pokemon is 0 and the pokemon is shown |
| Board.FlagIndicesSame | Pokemon.py:212-281 | boards that agree on where the flags are have the same flag set, so a reveal keeps left_pokemon consistent |
| Flood.WriteReveals | Pokemon.py:222-225 | writing its count onto a "~" cell without a pokemon is a reveal seeded there; it is closed unless the count is 0, and it removes one "~" cell |
| Flood.RevealsTrans | Pokemon.py:255-281 | two reveals in a row are a reveal, and closure composes |
| Flood.RevealsShrinks | Pokemon.py:255-281 | a reveal never creates a "~" cell, so the set of "~" cells, the termination measure, never grows |
| Flood.RevealsKeepWellFormed | Pokemon.py:212-281 | a reveal keeps every symbol truthful |
| Flood.RevealsKeepConsistent | Pokemon.py:212-281 | a reveal keeps the flag bookkeeping |
| Flood.ZeroVisitsUpDown | Pokemon.py:272-277 | setting a zero cell to "0" and extending its upper and lower neighbours leaves both neighbours exposed when they are on the board; the changes after the "0" are a closed reveal, and all changes stay in the region of the cell's seeds |
| Flood.WriteSpreads | Pokemon.py:304-311 | a single set_item changes nothing outside any region holding its own cell |
| Flood.SpreadsTrans | Pokemon.py:255-281 | spreading composes over two reveals, with the union of the seeds: a region closed over both reveals is closed over each |
| Flood.RegionSplits | Pokemon.py:255-281 | a region closed over two reveals in a row, from the union of the seeds, is closed over each of them |
| Flood.SpreadsMore | Pokemon.py:255-281 | a reveal that stays in the connected region of some seeds stays in that of more seeds |
| Flood.AbsorbSide | Pokemon.py:271-281 | the side neighbours of a seed newly shown as "0" need not be seeds: a region closed over the seed contains them already |
| Flood.ZeroVisits | Pokemon.py:271-281 | setting a zero cell to "0" and then extending its four side neighbours in the order up, down, left, right is a closed reveal spreading from the cell and its side neighbours, with no "~" left beside the cell |
| Flood.RevealCell | Pokemon.py:220-230 | left_click on a cell without a pokemon: a "~" cell shows its count and the result is a closed reveal that stays in the cell's connected region of new zeros and their side neighbours; any other cell leaves the board unchanged |
| Flood.ExtendZero | Pokemon.py:255-281 | extend_zero: off the board the board is returned unchanged. Otherwise the cell ends up showing its count and the board change is a reveal: it never touches a pokemon and only turns "~" into the cell's own digit. The reveal is closed: no new "0" keeps a "~" side neighbour. Every change lies in the connected region of the cell (and, for a zero cell, of its side neighbours): the cells reached by steps from a new "0" to a side neighbour. A zero cell has no "~" side neighbour left. The recursion terminates on the number of "~" cells |
| Flood.ExtendSide | Pokemon.py:273-280 | one guarded call: nothing changes unless the neighbour is on the board and shows "~"; otherwise the call reveals it and it shows its count |
| Flood.SeparateZeroAreaUntouched | Pokemon.py:212-281 | on a 4-by-4 board with pokemon at indices 3 and 12, left_click((0, 0)) on a fresh board shows "0" on the corner zero area (0..1, 0..1) but leaves the separate zero area (2..3, 2..3) as "~" |
| Flood.CornerZeros | Pokemon.py:175-210 | on that board the four cells (0..1, 0..1) have count 0 |
| Flood.CornerBorderNoZero | Pokemon.py:175-230 | on that board a reveal never shows "0" on (0, 2), (1, 2), (2, 0) or (2, 1), which each see a pokemon |
| Flood.CornerAreaClosed | Pokemon.py:255-281 | the corner zero area, its border and the side cells off the board form a region closed under the flood steps from (0, 0) |
| Flood.CornerAreaBound | Pokemon.py:255-281 | a reveal of that fresh board staying in the connected region of (0, 0) leaves (2..3, 2..3) as "~" |
| Flood.CornerAreaFlooded | Pokemon.py:255-281 | a closed reveal of that fresh board showing "0" at (0, 0) shows "0" across (0..1, 0..1) |
| Flood.EmptyBoardFloods | Pokemon.py:255-281 | on a fresh board without pokemon, a closed reveal that exposed any cell has shown "0" everywhere |
| Model.BoardModel.constructor | Pokemon.py:48-73 | __init__ with the random sample as a parameter: every cell "~", left_pokemon == num_pokemon, hidden_pokemon a copy of the placement, the game on; both invariants hold |
| Model.BoardModel.GetItem | Pokemon.py:112-117 | get_item returns a symbol that tells the truth about its cell, and an unexposed pokemon cell is in hidden_pokemon |
| Model.BoardModel.NumAttemptedCatches | Pokemon.py:105-110 | get_num_attempted_catches equals the number of flags on the board while the bookkeeping holds |
| Model.BoardModel.SetState | Pokemon.py:132-138 | set_state sets state |
| Model.BoardModel.TriggleIsWorking | Pokemon.py:140-146 | triggle_isworking sets isWorking |
| Model.BoardModel.SetItem | Pokemon.py:304-311 | set_item replaces the board by its Write at (x, y) |
| Model.BoardModel.ShowAllPokemon | Pokemon.py:313-319 | the loop over the pokemon list leaves the board equal to MarkPokemon of the old board |
| Model.BoardModel.ResetGame | Pokemon.py:162-173 | the nested loops set every cell to "~"; the state is the initial game of the same placement and both invariants hold |
| Model.BoardModel.CheckWin | Pokemon.py:321-331 | returns true exactly when hidden_pokemon is empty, left_pokemon is 0 and state holds; then every pokemon is shown and isWorking is false, otherwise nothing changes |
| Model.BoardModel.CheckLose | Pokemon.py:333-342 | returns true exactly when loss and state hold; then isWorking becomes false, otherwise nothing changes |
| Model.BoardModel.RightClick | Pokemon.py:232-253 | the new state is RightClickSpec of the old one (flag or unflag with counter and hidden list, check_win after a flag; nothing when not working or on another symbol); the invariant holds after, and so does the bookkeeping unless the click won |
| Model.BoardModel.LeftClick | Pokemon.py:212-230 | nothing when not working. On a pokemon (flagged or not) loss is set and every pokemon is shown. Elsewhere the board becomes RevealCell of the old board. The invariant holds after, and so does the bookkeeping when the cell was no pokemon |
| Levels.LevelText | Pokemon.py:1173 | str(i) for i in 1..10: one or two decimal digits |
| Levels.LevelTextInjective | Pokemon.py:1173 | different levels are written differently |
| Levels.FindLevel | Pokemon.py:1173-1174 | membership in [str(i) for i in range(1, 11)]: a found level has the answer as its text; none found means no level from k on has it |
| Levels.ChooseLevel | Pokemon.py:1171-1177 | the level is in 1..10; it is the typed level exactly when the answer is the text of one, and 9 otherwise (including a cancelled dialog) |
| Levels.ChooseTypedLevel | Pokemon.py:1173-1174 | typing the text of level k gives level k |
| Levels.NewGameSize | Pokemon.py:1178 | BoardModel(1 + level, 2 * level): a side of 2..11 and 2 * (side − 1) pokemon |
| Levels.NewGameFits | Pokemon.py:1178 | for every level 2*level <= (1+level)^2, and a placement of 2*level distinct indices exists, so generate_pokemon's assertion and sample cannot fail |

## Left out

- The user interface (`StatusBar`, `BoardView`, `ImageBoardView`, `PokemonGame`, `get_image`), the 100 ms polling loop, dialogs and message boxes: these are tkinter I/O.
- Score recording, ranking and save/load (`record_score`, `reading_ranking`, `_save_file`, `_load_file`): file I/O and JSON. `_load_file` also writes the fields directly and bypasses the invariants.
- `random.sample` in `generate_pokemon`: the placement is a constructor parameter. Its precondition is what `random.sample(range(0, n ** 2), k)` delivers: k distinct indices in [0, n*n).
- `__str__`: it depends on Python's list repr.
- The getters that only return a field (`get_board`, `get_left_pokemon`, `get_num_pokemon`, `get_game`, `get_pokemon_location`): they are the fields themselves.
- Model.BoardModel.RightClick: requires an on-board position. The source asserts only the upper bounds, and a negative coordinate would index from the end of a Python list. That behaviour is not modelled.
- Flood.ExtendZero: the second parameter `pre_position` is never read and is not modelled.
- Flood.ExtendZero: requires a cell that is not a pokemon and not flagged. Its only callers, `left_click` and `extend_zero` itself, reach it only there. `left_click` calls it only while `isWorking` holds, so the inner `left_click` of `extend_zero` is modelled as its working, non-pokemon branch, `Flood.RevealCell`.
- Model.BoardModel.LeftClick: the recursion of `left_click` and `extend_zero` is modelled on board values (`Flood.RevealCell`, `Flood.ExtendZero`, `Flood.ExtendSide`) and the method assigns the final board once. Nothing else reads or writes the board during the recursion, so the end state is the same; the individual in-place `set_item` steps and their order are not modelled one by one.
- Model.BoardModel.LeftClick: keeps the flag bookkeeping only when the click is not on a pokemon. On a pokemon, `show_all_pokemon` overwrites flags, so the bookkeeping of a lost game is not kept (the same holds after a win).
- `left_click` on a flagged cell: the source tests for a pokemon before looking at the symbol, so a flagged pokemon still loses the game, while a flagged non-pokemon cell does not change. The model follows the code.
- Python's recursion depth limit is not modelled. On a board without pokemon, `extend_zero` recurses through about n² cells, so a board of side 40 would raise RecursionError where `Flood.RevealCell` floods the whole board. Every board the game builds has a side of at most 11, where the limit is not reached.
- Integer widths do not arise: Python integers are unbounded, as Dafny's are.
