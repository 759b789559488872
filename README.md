# Conway's Game of Life with cached neighbour counts, in Dafny

This project models the core of a Rust Game of Life simulator (rule B3/S23).
Each cell caches how many of its neighbours are alive. A cell that is born
or killed pushes +1 or -1 into the cached count of each cell on its
relation list. A board of `w x h` cells is padded with one ring of dead
sentinel cells. A generation is one in-place, row-major pass over the
interior cells, driven by the cached counts.

The source links cells through shared mutable references
(`Rc<RefCell<Cell>>`). Here every board keeps its cells in one arena, a
`seq<Cell>` field that the methods reassign, and a relation is the index
of the cell it refers to. The cell at `(x, y)` of a board of width `w` has
index `x + y * w` (`Grid.Idx`).

The project has four modules:

- `Cells` (`cells.dfy`) models src/cell.rs.
  - Class `Arena` holds the cells. Its methods are `notify_born`,
    `notify_kill`, the 3x3 loop of `around_cells_notify`, `kill`, `born`
    and `set_arround_cells`.
  - The pure functions `Notified` and `Flip` state what those methods do
    to the whole arena.
  - A panic of the source is the value `Fatal` of `Outcome`. There are
    three of them: `assert_ne!` on an empty relation list, an index past
    the end of a short relation list, and the `_` arm of `refresh`. The
    draft in src/main.rs adds a fourth: its `set_boardstate` indexes the
    cell vector past its end, which `Draft.Board.SetBoardstate` reports as
    `ok == false`.
- `Grid` (`grid.dfy`) holds the geometry and the wiring pattern that both
  board versions build.
  - It states the board invariant `Inv`: each interior cell is wired to
    its 3x3 block, and every cached count, border cells' included, equals
    the number of live cells among the eight around it.
  - It defines a generation as a pure function, `Rule`, then `RowFrom`,
    `RowsFrom` and `Generation`, which applies the rule cell by cell in
    scan order.
  - It proves that a generation on a board that keeps the invariant never
    panics, keeps the invariant and leaves the border's states alone.
- `Boards` (`board.dfy`) models src/board.rs.
  - Class `Board` has `new`, `init`, `set_ref`, `set_boardstate`,
    `refresh`, `clone` and `eq`.
- `Draft` (`draft.dfy`) models src/main.rs, the earlier single-file
  version that the binary builds.
  - Its `cell_search` applies a count operation passed as a function.
  - `Draft.SearchedNotified` proves that `born` and `kill` built on it
    change the cells exactly as src/cell.rs does.
  - Its board wires without a cap, and `set_boardstate` takes a raw
    position.

Four points where the code's own names and comments suggest otherwise; the
model follows what the code does:

- An interior cell holds 9 relations, not 8. Slot 4 is the cell itself
  and is skipped when notifying.
- The cap check `len <= 8` lets a list reach 9 entries.
- Border cells' counts do change. Only their states stay fixed.
- `refresh` updates in place in row-major order. Later cells read counts
  already changed by earlier flips in the same pass.

## Model

| member | source | states |
|---|---|---|
| Cells.NewCell | src/cell.rs:53-60 | a new cell is dead, has count 0 and no relations |
| Cells.CloneCell | src/cell.rs:37-50 | a clone copies state and count, drops the relations, and equals the original under cell equality (state only) |
| Cells.CellEq | src/cell.rs:46-50 | two cells are equal exactly when they agree once count and relations are ignored, that is, on their state alone |
| Cells.PushCapped | src/cell.rs:120-124 | one `set_arround_cells` keeps the list as a prefix and adds relation r exactly when the list holds at most 8 entries, so a list of at most 9 stays at most 9 |
| Cells.PushAllCapped | src/cell.rs:120-124 | registering relations one by one appends them only while the list has at most 8 entries: the list never exceeds 9, and a list past the cap is left unchanged |
| Cells.PushAllNext | src/cell.rs:120-124 | registering one more relation is one more capped push |
| Cells.AdjustedAt | src/cell.rs:70-84 | after the first t slots, each cell's count has moved by one per slot, other than slot 4, that refers to it; its state and relations are unchanged |
| Cells.Adjusted | src/cell.rs:71-84 | the first t slots of the 3x3 loop, as a value, keep the arena's size; `AdjustedAt` gives their closed form |
| Cells.Notified | src/cell.rs:70-86 | `around_cells_notify(s)`: each cell's count moves by +1 (birth) or -1 (death) per non-self slot naming it; the notifying cell takes state `s`; no other state and no relation list changes |
| Cells.Flip | src/cell.rs:89-109 | `kill`/`born` are fatal exactly when the relation list is empty (checked before the no-op test) or when a real flip meets a list shorter than 9; a cell already in the target state is left as it is; otherwise the flip sets the state and keeps every relation list |
| Cells.AdjustedNext | src/cell.rs:77-82 | one notification keeps every count within `u8` when the whole flip does, and is the next step of the 3x3 loop |
| Cells.AdjustedWellFormed | src/cell.rs:62-68 | part of a flip that stays within `u8` keeps every count in 0..255 and every relation on the arena |
| Cells.Arena.constructor | src/board.rs:66-70 | an arena starts empty |
| Cells.Arena.Push | src/board.rs:78-80 | pushing a cell without relations appends it |
| Cells.Arena.NotifyBorn | src/cell.rs:62-64 | adds one to the count of cell i only, given the count is below 255 |
| Cells.Arena.NotifyKill | src/cell.rs:66-68 | subtracts one from the count of cell i only, given the count is positive |
| Cells.Arena.AroundCellsNotify | src/cell.rs:70-86 | the nested 3x3 loop, skipping slot 4, leaves the arena equal to `Notified` |
| Cells.Arena.NotifySlot | src/cell.rs:77-82 | one non-self slot notifies the cell it names |
| Cells.Arena.Kill | src/cell.rs:89-98 | the new arena is `Flip(old, i, false)`; the method reports the panics |
| Cells.Arena.Born | src/cell.rs:100-109 | the new arena is `Flip(old, i, true)`; the method reports the panics |
| Cells.Arena.SetAroundCells | src/cell.rs:120-124 | appends relation r to cell i when its list has at most 8 entries, otherwise changes nothing |
| Grid.Idx | src/board.rs:55 | the row-major index of an on-board position is on the board |
| Grid.IdxInjective | src/board.rs:55 | distinct positions have distinct indices |
| Grid.IdxOnto | src/board.rs:55 | every index of the board is some position's index |
| Grid.Wiring | src/board.rs:95-101 | an interior cell's 9 relations are on the board, and slot 4 is the cell itself |
| Grid.WiringSlot | src/board.rs:95-101 | slot `j + 3 * i` refers to `(x - 1 + j, y + 1 - i)` |
| Grid.WiringHits | src/cell.rs:71-75 | a wired cell notifies each of the 8 cells around it exactly once, and no other cell, itself included |
| Grid.AliveAround | src/cell.rs:28-29 | the number of live cells around a position is in 0..8 |
| Grid.BlankInv | src/board.rs:72-85 | a wired board of dead cells with count 0 keeps the invariant |
| Grid.InvWellFormed | src/board.rs:118-124 | under the invariant every count is in 0..8, so within `u8` and never reaching the panic arm, and every relation stays on the board |
| Grid.AliveAroundFlip | src/cell.rs:70-86 | flipping one cell changes the live tally around (a, b) by one exactly when the cell is adjacent to (a, b) |
| Grid.AliveAroundCounts | src/cell.rs:62-68 | the live tally around (a, b) counts the adjacent cell (x, y) when it is alive |
| Grid.InvNoOverflow | src/cell.rs:62-68 | under the invariant an interior cell has 9 relations, and flipping it keeps every count within `u8`: `notify_born` never sees 255 and `notify_kill` never sees 0 |
| Grid.NotifiedOwnCount | src/cell.rs:75 | a wired cell's own count is not changed by its own flip |
| Grid.NotifiedInv | src/cell.rs:70-86 | flipping an interior cell keeps the invariant |
| Grid.Rule | src/board.rs:116-125 | the rule step keeps the arena's size and every relation on the board |
| Grid.RuleInv | src/board.rs:118-124 | under the invariant the rule step never panics, makes the cell alive exactly when its count is 3, or 2 and it was alive, changes no other cell's state, leaves the border alone and keeps the invariant |
| Grid.RuleKeeps | src/board.rs:116-125 | the rule step never panics and keeps the invariant and the border |
| Grid.RowFrom | src/board.rs:114-126 | the rest of a row keeps the arena's size and its relations on the board |
| Grid.RowsFrom | src/board.rs:113-127 | the remaining rows keep the arena's size and its relations on the board |
| Grid.Generation | src/board.rs:107-128 | one `refresh` keeps the arena's size and every relation on the board; `GenerationInv` proves it never panics under the invariant |
| Grid.RowFromInv | src/board.rs:114-126 | under the invariant the rest of a row never panics, keeps the invariant and leaves the border alone |
| Grid.RowsFromInv | src/board.rs:113-127 | under the invariant the remaining rows never panic, keep the invariant and leave the border alone |
| Grid.GenerationInv | src/board.rs:107-128 | a generation on a board that keeps the invariant never panics, keeps the invariant (so counts stay in 0..8) and never changes a border cell's state |
| Boards.Registered | src/board.rs:95-101 | registering an interior cell's block changes only its relation list |
| Boards.RegisteredStep | src/board.rs:92-103 | registering the next interior cell in scan order extends the registered prefix by that cell alone |
| Boards.RegisteredRow | src/board.rs:91-104 | finishing a row is starting the next one |
| Boards.RefsSetFromBlank | src/board.rs:86-105 | `set_ref` on cells without relations gives the wired board (9 relations per interior cell, none on the border) and changes no state or count |
| Boards.RefsSetWired | src/board.rs:86-105 | a second `set_ref` adds nothing |
| Boards.RefsSetRestores | src/board.rs:13-28 | clones with their relations dropped, rewired by `set_ref`, are the original cells again |
| Boards.SameBoard | src/board.rs:31-45 | `eq` holds of a board and itself, and only between boards of the same sizes; `Equals` returns exactly this |
| Boards.Board.constructor | src/board.rs:62-71 | `new(w, h)` stores the padded sizes `w + 2`, `h + 2` and no cells |
| Boards.Board.Init | src/board.rs:72-85 | `init` leaves an initialised board of dead cells with count 0 that keeps the invariant |
| Boards.Board.SetRef | src/board.rs:86-105 | the four nested loops register every interior cell's block, capped, and change nothing else |
| Boards.Board.RegisterAround | src/board.rs:95-102 | the two inner loops register the 3x3 block of one interior cell |
| Boards.Board.RegisterSlot | src/board.rs:97-100 | slot `j + 3 * i` registers the cell at `(x - 1 + j, y + 1 - i)` |
| Boards.Board.SetBoardstate | src/board.rs:48-61 | positions shift by one; a shifted position at or past the last column or row is ignored; otherwise the cell is born or killed as `Flip` says (never a panic), and the invariant is kept |
| Boards.Board.Refresh | src/board.rs:107-128 | `refresh` turns the cells into `Generation` of the old ones, never panics, keeps the invariant and never changes a border cell's state |
| Boards.Board.RuleStep | src/board.rs:116-125 | the loop body applies `Rule` at one interior cell |
| Boards.Board.Clone | src/board.rs:13-28 | the clone is a fresh board with a fresh arena, the same sizes and the same cells, relations rebuilt into the clone's own arena; it compares equal to the original |
| Boards.Board.Equals | src/board.rs:31-45 | true exactly when widths and heights match and the cells have equal states at every index both arenas hold |
| Draft.Inc | src/main.rs:64 | the count operation of `born` raises the count, and `Dec` undoes it |
| Draft.Dec | src/main.rs:56 | the count operation of `kill` lowers the count |
| Draft.SearchedFrame | src/main.rs:37-48 | `cell_search` changes counts only |
| Draft.Searched | src/main.rs:38-46 | the first t slots of `cell_search`'s loop, as a value, keep the arena's size; `SearchedFrame` and `SearchedIsAdjusted` say what they change |
| Draft.SearchedAll | src/main.rs:37-48 | `cell_search(op, s)` sets the cell's state to `s` and keeps every relation list |
| Draft.SearchedIsAdjusted | src/main.rs:51-65 | applying `v + 1` (`v - 1`) slot by slot is notifying of a birth (a death) slot by slot |
| Draft.SearchedNotified | src/main.rs:51-65 | the draft's `born`/`kill` change the cells exactly as `around_cells_notify` of src/cell.rs does |
| Draft.WiredBeforeStep | src/main.rs:100-107 | wiring the next interior cell in scan order extends the wired prefix by that cell alone |
| Draft.WiredBeforeRow | src/main.rs:96-109 | finishing a row is starting the next one |
| Draft.WiredBeforeDone | src/main.rs:80-111 | once all rows are wired the fresh board keeps the invariant |
| Draft.Heap.constructor | src/main.rs:81-85 | the arena starts empty |
| Draft.Heap.Push | src/main.rs:89-91 | pushing a cell without relations appends it |
| Draft.Heap.Append | src/main.rs:102-106 | a relation is appended with no cap |
| Draft.Heap.CellSearch | src/main.rs:37-48 | the 3x3 loop, skipping slot 4, leaves the cells equal to `SearchedAll` |
| Draft.Heap.SearchSlot | src/main.rs:42-44 | one non-self slot reads the count and stores `op` of it |
| Draft.Heap.Kill | src/main.rs:51-57 | the new cells are `Flip(old, i, false)`, the same as src/cell.rs, and a panic changes nothing |
| Draft.Heap.Born | src/main.rs:59-65 | the new cells are `Flip(old, i, true)`, the same as src/cell.rs, and a panic changes nothing |
| Draft.Board.constructor | src/main.rs:80-111 | `new(w, h)` with already padded sizes yields dead cells with count 0, wired, keeping the invariant |
| Draft.Board.Allocate | src/main.rs:86-93 | `w * h` dead cells without relations, row by row |
| Draft.Board.Wire | src/main.rs:96-109 | the wiring loops leave every interior cell wired to its block and the border without relations |
| Draft.Board.AppendAround | src/main.rs:100-107 | the two inner loops append the 3x3 block of one interior cell |
| Draft.Board.SetBoardstate | src/main.rs:77-79 | birth at raw index `x + y * width`: an index past the board panics, otherwise the result is `Flip(old, i, true)` and the invariant is kept |
| Draft.Board.Refresh | src/main.rs:113-135 | the same `Generation` as src/board.rs; never panics, keeps the invariant and the border |
| Draft.Board.RuleStep | src/main.rs:122-132 | the loop body applies `Rule` at one interior cell |

## Left out

- Printing is not modelled: `show_board`, `show_refcnt_board` and the `println!` in the draft `refresh`. They only produce output.
- The `main()` driver is not modelled. It only seeds three cells and prints the board.
- src/types.rs is not part of this model. It holds only a type alias.
- `Point` and its getters are dropped. Positions are diagnostic only, and a cell's position is its index.
- `Rc`/`RefCell` reference counting and runtime borrow checks are not modelled. A cell that listed itself in a slot other than 4 would panic on a double borrow. The wiring lemmas show that never happens on a wired board.
- The getters `get_survive`, `get_around_survivers_count` and `get_aroundcell_refcnts` become the functions `Arena.Survive`, `Arena.Count` and `Arena.RefCount`. They read one field and state nothing more.
- Cells.Arena.NotifyBorn: the `u8` overflow at 255 is a precondition rather than a modelled panic or wrap-around. `Grid.InvNoOverflow` proves that the invariant discharges it.
- Cells.Arena.NotifyKill: the `u8` underflow at 0 is a precondition in the same way.
- Cells.Arena.Kill: requires that a real flip keeps every count within `u8`. `Boards.Board` always proves this from the invariant.
- Cells.Arena.Born: requires that a real flip keeps every count within `u8`, as `Kill` does.
- Draft.Heap.CellSearch: counts are unbounded integers, so the draft's `u8` wrap-around or debug panic is not modelled. The board invariant keeps counts in 0..8 anyway.
- Boards.Board.Init: requires a board with no cells, as `new` leaves it. Calling `init` twice would push a second set of cells, and that is not modelled.
- Boards.Board.SetBoardstate, Refresh and Clone: require an initialised board (`Valid`). On a board that `new` created but `init` never filled, the source would index an empty vector.
- A panic of the source ends the program. The model returns `Fatal` (or `ok == false`) and says nothing more about the state at that point, except where a method states it.
- Draft.Board.constructor: requires `1 <= h` and, when there is an interior row, `1 <= w`. For smaller sizes `height - 1` or `width - 1` underflows `usize` in src/main.rs:96-97 and the source panics; the model does not model that panic.
- Overflow of `usize` index arithmetic is not modelled. Integers are unbounded.
