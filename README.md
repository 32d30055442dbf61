# Sudoku candidate board and peer elimination

This project models the candidate-mask board and the single elimination step
of the `sudoku_solver` program (`src/main.rs`) in Dafny, with proofs about them.

- A board has 81 cells, stored row-major. Each cell is a `u16` mask in which
  bit `d-1` set means that digit `d` is still possible. A fresh board has
  every cell at `0b111_111_111`.
- `Board::init` reads puzzle text. Each `-` leaves the next cell
  unconstrained, and each digit `d` sets the next cell to `1 << (d-1)`. Every
  other character is formatting and is skipped.
- Cells are addressed either by row-major index or by box and sub-box
  coordinates, each in `[0, 3)`.
- A cell is *known* when `val & (val - 1) == 0`.
- `get_relevant_positions` lists the 20 peers of a cell in three counted
  loops: first the 6 cells of its row outside its box, then the 6 cells of
  its column outside its box, then the other 8 cells of its box.
- `remove_non_possibilities` walks that list. For every known peer, it
  clears that peer's bits from the chosen cell.

The model has three modules:

- `Board` (`board.dfy`): masks and population count, cell coordinates, the
  puzzle-text tokens, and the class `Board`, whose `cells` field is an
  `array<bv16>` updated in place.
- `Solver` (`solver.dfy`): peers, the method `GetRelevantPositions` (three
  loops filling a local array of 20), and the method
  `RemoveNonPossibilities` (a loop that updates `cells[index]` in place).
  The methods are specified against reference definitions:
  - `PeerList` is an independent scan of all 81 cells.
  - `KnownMask` is the union of the masks of the known cells in a list.
- `Example` (`example.dfy`): the run in `main`, which is parse, eliminate at
  cell 45, then ask whether cells 0 and 1 are known.

Integers are unbounded, and masks are `bv16`, so `val - 1` wraps around as a
`u16` does in a release build.

Behaviour of the code worth knowing:

- **Cells with no candidates.** The known-test is also true for an empty
  mask (0), so it means "at most one bit set" (`IsKnownByValue`).
- **Direction of elimination.** Elimination reads the known peers of one cell
  and clears their digits from that cell. It does not push a resolved digit
  out to its peers.
- **No contradiction check.** Nothing reports a cell that has been emptied
  (`EliminationEmpties`).
- **No search.** There is no cascade, no branching and no search.
- **A `0` digit.** In a release build, `0 - 1` wraps to `u32::MAX` and
  `2u16.pow` of it wraps to 0, so a `0` in the text stores an empty cell. The
  model follows this (`CellValue`).

## Model

| member | source | states |
|---|---|---|
| Board.Board.constructor | src/main.rs:9-11 | A fresh board has all 81 cells set to `0x1FF`. |
| Board.Board.Init | src/main.rs:13-29 | The board has cell `k` equal to the mask of the `k`-th `-` or digit of the text, and `0x1FF` past the last one. Requires every digit to land on a cell below 81. |
| Board.TokensStep | src/main.rs:17-26 | One more character advances the cell index by one exactly when it is `-` or a digit. Any other character is skipped. |
| Board.TokensAppend | src/main.rs:17-26 | The cells read from two pieces of text joined together are the cells of the first piece followed by those of the second. |
| Board.Tokens | src/main.rs:17-26 | The counted characters are never more than the text, and each one is `-` or a digit. |
| Board.CellValue | src/main.rs:18-24 | `-` gives `0x1FF`. Digit `d` in 1..9 gives the mask whose only set bit is `d-1`. Digit `0` gives 0, as the wrapping `0 - 1` and `pow` do in a release build. |
| Board.CellValueKnown | src/main.rs:22-24 | A cell parsed from a digit (`0` included) is known, and a cell parsed from `-` is not. |
| Board.Board.CoordsToCellIndex | src/main.rs:31-33 | In-range coordinates give an index below 81, in row `boxY*3+subY` and column `boxX*3+subX`. |
| Board.CoordsRoundTrip | src/main.rs:31-33 | Reading the coordinates back off the computed index gives the original coordinates (injective on `[0,3)^4`). |
| Board.IndexRoundTrip | src/main.rs:31-33 | Every index below 81 is the image of in-range coordinates (onto `0..80`). |
| Board.Board.CellByCoords | src/main.rs:35-37 | Reading through `cell_by_coords` gives the cell in row `boxY*3+subY` and column `boxX*3+subX`. |
| Board.Board.SetCellByCoords | src/main.rs:35-37 | Writing through the returned reference changes that one cell and no other. |
| Board.Board.IsKnownByValue | src/main.rs:39-41 | The known-test is true exactly when `val` is 0 or has exactly one set bit. |
| Board.KnownByValueIffOneBit | src/main.rs:40 | `val & (val-1) == 0` holds exactly when `val` is 0 or has exactly one set bit, with `val - 1` wrapping at 0. |
| Board.ClearLowestBit | src/main.rs:40 | For a nonzero mask, `v & (v-1)` has exactly one set bit fewer than `v`. |
| Board.Board.IsCellKnown | src/main.rs:43-45 | A cell is reported known exactly when its mask is 0 or a single candidate. |
| Solver.GetRelevantPositions | src/main.rs:82-109 | It returns 20 pairwise-distinct entries, none equal to `index`. Entries 0-5 share its row outside its box, 6-11 share its column outside its box, and 12-19 share its box, each group increasing. For `index < 81`, all entries are below 81 and are exactly the cells sharing a row, column or box with `index`. |
| Solver.BoxEntrySelf | src/main.rs:100-105 | The third loop skips exactly one of the nine box cells, the one that is `index` itself, so the counter ends at 20. |
| Solver.EntriesGrouped | src/main.rs:90-106 | The first loop's entries lie in the row, the second loop's in the column, both outside the box, and the third loop's entries lie in the box. |
| Solver.EntriesOrdered | src/main.rs:90-106 | Each loop emits its cells in increasing order. |
| Solver.EntriesDistinct | src/main.rs:90-106 | The 20 entries are pairwise distinct, and none of them is `index`. |
| Solver.EntriesArePeers | src/main.rs:90-106 | For `index < 81`, every entry is a cell of the board sharing a row, column or box with `index`. |
| Solver.PeersAreEntries | src/main.rs:90-106 | For `index < 81`, every cell sharing a row, column or box with `index` is an entry. |
| Solver.PeerList | src/main.rs:82-109 | A reference scan over 0..80: it holds exactly the peers of `index` on the board. |
| Solver.RemoveNonPossibilities | src/main.rs:111-120 | Only `cells[index]` changes. Its new value is its old value with every bit of every known peer cleared, taken over the reference peer scan. |
| Solver.EliminateAlong | src/main.rs:113-119 | After the loop over a list of other cells, `cells[index]` is its old value minus the union of the known listed cells' masks, and nothing else changes. |
| Solver.EliminateKnown | src/main.rs:114-115 | One iteration at a known cell equals extending the union by that cell's mask. |
| Solver.EliminateUnknown | src/main.rs:114 | One iteration at an unknown cell leaves the union as it was. |
| Solver.KnownMaskOrderIndependent | src/main.rs:113-117 | The union of known masks depends only on which cells are visited, not on their order or on repeats. |
| Solver.PositionsCoverPeers | src/main.rs:113 | Eliminating along the listed positions gives the same union as eliminating along the reference peer scan. |
| Solver.KnownMaskBit | src/main.rs:113-117 | Bit `b` of the union is set exactly when some known listed cell has bit `b`. |
| Solver.KnownPeerMaskBit | src/main.rs:113-117 | Bit `b` of the union over the peers is set exactly when some known peer on the board has bit `b`. |
| Solver.EliminationBit | src/main.rs:111-120 | After elimination, digit bit `b` of the cell is set exactly when it was set before and no known peer holds it. |
| Solver.EliminationEmpties | src/main.rs:111-120 | When known peers hold all of a cell's candidates, the cell becomes 0, and nothing reports it. |
| Example.MainRun | src/main.rs:125-146 | On text whose cells agree with `main`'s puzzle at cell 45, its 20 peers and cells 0 and 1, the run yields cell 45 = `0b10`, cell 0 known and cell 1 not known. |
| Example.MainElimination | src/main.rs:142 | With the peers of cell 45 holding `main`'s givens, elimination leaves only digit 2 in a blank cell 45. |
| Example.MainKnownPeers | src/main.rs:142 | The known peers of cell 45 in `main`'s puzzle hold digits 1 and 3 to 9. |

## Left out

- `val_to_string` and `print`. They compute a floating-point `log2` and only format output.
- The `println!` in the elimination loop, and the commented-out one. They only write output.
- `main`'s printing. The model keeps `main`'s sequence of calls as `Example.MainRun`.
- Example.MainRun: the puzzle text is a parameter. It is constrained on the 22 cells the run reads, not fixed to `main`'s 198-character literal, whose 81 `-` and digit characters fill the board. Evaluating the literal character by character is beyond what the verifier does cheaply.
- Board.Board.Init: text with a digit that lands past cell 80 is excluded by the precondition, because the code panics on the array index there in any build. A `0` digit is modelled as a release build runs it (an empty cell); a debug build panics on the `u32` subtraction instead.
- Board.Board.IsKnownByValue: models `val - 1` with `u16` wrap-around, which is release-build behaviour. At `val == 0` a debug build panics instead of returning true.
- Board.Board.CoordsToCellIndex: computes on unbounded integers. It does not model `i32` overflow or the `as usize` cast of a negative result. `CellByCoords` and `SetCellByCoords` require the index to be on the board, where the code would panic.
- Board.Board.CellByCoords: `cell_by_coords` returns a `&mut u16`. The model splits it into a read function and a write method, `SetCellByCoords`.
- Solver.GetRelevantPositions: works on unbounded integers, so `usize` overflow for huge indices is not modelled. The range and peer claims are stated only for `index < 81`, because past the board they do not hold: the row and box entries lie past cell 80, and the column entries miss some column-mates (54, 63 and 72 for index 81). Its only caller, `remove_non_possibilities`, panics there anyway.
- Solver.RemoveNonPossibilities: requires `index < 81`. Beyond that, the code panics when it reads a peer cell.
- `GetRelevantPositions` returns the 20 entries as a sequence value. The fixed-size local array it fills is kept inside the method.
