# terminal_cellular, modelled in Dafny

A model of the core of `terminal_cellular`: a two-state cellular automaton
(Conway's Life and its relatives, with configurable birth and survival rules)
on a fixed rectangular grid with open edges, drawn in a terminal by a renderer
that rewrites only the cells that changed since the last frame. Everything
modelled lives in `src/automata.rs`.

Files and modules:

- `wrappers.dfy` (`Wrappers`): `Option` and `Result`. The source panics where
  the model returns `None`, `Err` or `false`.
- `rowmajor.dfy` (`RowMajor`): `u8`, and the flat row-major layout shared by board
  and terminal. Cell (x, y) sits at index `x + y * width`. The lemmas show this index
  is in bounds, one-to-one, and recovered by `/` and `%`.
- `decimal.dfy` (`Decimal`): the single-digit parse used for rule strings. Also
  Rust's `{}` formatting of an unsigned integer (`Format`) and a reader that inverts it.
- `rules.dfy` (`Rules`): `rule_from_string`.
- `neighbours.dfy` (`Neighbours`): the live-neighbour count, defined twice and
  proved equal. `WindowSum` is what the source's clipped double loop adds up.
  `NeighbourSum` is the textbook sum over the eight neighbouring positions.
- `automata.dfy` (`Automata`): class `Board` (`Board::new`, `get_tile`,
  `set_tile`, `randomize`, `count_neighbours`, `replace_tiles`) and
  `automata_step`. `NextGeneration` specifies the step.
- `screen.dfy` (`Screen`): class `Terminal` (`Terminal::new`, `draw_buffer`,
  `print_tiles`). `Diff` specifies which updates a frame needs. `Frame` is the exact
  character stream written. `DecodeFrame` reads that stream back.

What `draw_buffer` writes is returned as a value: the exact characters that would
reach standard output.

Notes on the code as written:

- `draw_buffer` adopts the new frame (line 77) *before* it writes anything
  (lines 79-81). The model follows the code. It cannot tell the difference,
  because output cannot fail in the model.
- The colour selection is written with `println!`, so it ends with a newline.
  `ColorPrefix` includes that newline.
- Cursor positions are written 0-based and untranslated (`ESC[y;xH`).
  Under ECMA-48 CUP (section 8.3.21) a parameter of 0 means 1. So on a real
  terminal, row 0 and row 1 of the grid both land on the first screen row, and
  column 0 and column 1 both land on the first screen column. The model keeps the
  0-based numbers the code emits. It does not model what the terminal shows.
- Rule entries are `u8` values 0 and 1. They are not booleans.
- `automata_step` takes any `[u8; 9]` tables and any tile values. It panics only
  when a neighbour count does not index the 9-slot table. `AutomataStep` fails
  in exactly that case.

## Model

| member | source | states |
|---|---|---|
| Rules.RuleFromString | src/automata.rs:119-132 | Succeeds iff every character is a digit 0-8 and no digit repeats; the table is then `RuleTable(s)`. On failure the error names the first bad character: the prefix before it is accepted, the prefix through it is not, and the kind fits the character (not a digit, `9`, or a repeat). |
| Rules.RuleTable | src/automata.rs:120-125 | The table a rule string denotes has only 0/1 entries. |
| Rules.RuleTableCountsDigits | src/automata.rs:124-125 | For a well-formed rule string, the table holds as many 1s as the string has characters: each digit sets its own slot. |
| Rules.RuleTableDigits | src/automata.rs:122-125 | The slots set to 1 are exactly the digit values in the string. |
| Rules.EmptyRule | src/automata.rs:120 | The empty string is accepted and gives the all-zero table. |
| Rules.RepeatedDigitRejected | src/automata.rs:124-128 | A string with a repeated digit is not well formed, so `RuleFromString` rejects it. |
| Rules.ConwayRules | src/automata.rs:119-131 | "3" and "23" are accepted and give the B3/S23 tables. |
| Decimal.ParseFormat | src/automata.rs:69 | Rust's `{}` rendering of a number reads back as that number. |
| Decimal.Format | src/automata.rs:69 | The rendering is a non-empty run of digits with no leading zero. |
| Neighbours.WindowIsNeighbourSum | src/automata.rs:26-36 | The clipped window `[max(0,x-1), min(x+2,w)) x [max(0,y-1), min(y+2,h))` minus the centre sums to the sum over the eight neighbouring positions, where positions off the grid count 0. This holds for every (x, y). |
| Neighbours.NeighbourSumBound | src/automata.rs:26-36 | With 0/1 tiles, the count is at most the number of on-grid neighbours, and at most 8. |
| Neighbours.FullGridCountsCandidates | src/automata.rs:29-30 | On an all-alive grid the count equals the number of on-grid neighbours: cells off the grid are absent, not counted. |
| Neighbours.CornerCandidates | src/automata.rs:29-30 | Each corner of a grid of at least 2x2 has 3 candidate neighbours. |
| Neighbours.EdgeCandidates | src/automata.rs:29-30 | On a grid of at least 2x2, a cell on any of the four edges that is not a corner has 5 candidate neighbours. |
| Neighbours.InteriorCandidates | src/automata.rs:29-30 | An interior cell has 8. |
| Automata.Board.constructor | src/automata.rs:12-15 | `width*height` tiles, all 0. |
| Automata.Board.GetTile | src/automata.rs:16-18 | The tile at slot `x + y*width`; for an on-board position it is the tile `Cell` gives the neighbour count and the step. |
| Automata.Board.SetTile | src/automata.rs:19-21 | Only the slot `x + y*width` changes, to `val`. |
| Automata.Board.Randomize | src/automata.rs:22-25 | Fails iff there is a tile and the ratio is invalid (denominator 0 or numerator above it). Otherwise tile i becomes 1 or 0 as the i-th random draw says, and the length is kept. |
| Automata.Board.CountNeighbours | src/automata.rs:26-36 | The nested loops compute `NeighbourSum`. The result is `None` (the u8 overflow panic) iff that sum exceeds 255. |
| Automata.Board.ReplaceTiles | src/automata.rs:37-42 | Succeeds iff the new buffer has the old length; then the tiles are replaced wholesale, otherwise unchanged. |
| Automata.AutomataStep | src/automata.rs:104-117 | Succeeds iff every neighbour count is at most 8. On success it preserves width, height and length, and the tiles become `NextGeneration` of the old tiles. On failure the board is unchanged. |
| Automata.NextGenerationAt | src/automata.rs:106-113 | Simultaneous update: the new tile at (x, y) is `birth[n]` if the old tile is 0 and `survive[n]` otherwise. Both the tile and n are taken from the old generation. |
| Automata.BinaryBoardSteppable | src/automata.rs:108-112 | A 0/1 board never makes the rule lookup go out of bounds. |
| Automata.NextGenerationBinary | src/automata.rs:109-113 | With 0/1 tables, every tile of the next generation is 0 or 1. |
| Automata.ParsedRulesKeepBoardBinary | src/automata.rs:104-131 | With tables from rule strings, a 0/1 board steps successfully and stays 0/1. |
| Automata.LoneCellDies | src/automata.rs:104-117 | 3x3 board, B3/S23, lone live centre: everything is dead after one step. |
| Automata.SurroundedCentreStaysDead | src/automata.rs:104-117 | 3x3 board with a dead centre and 8 live neighbours: under birth "3" the centre stays dead. |
| Screen.Terminal.constructor | src/automata.rs:54-57 | `width*height` characters, all spaces; the colour is kept. |
| Screen.Terminal.DrawBuffer | src/automata.rs:59-82 | `None` (no change) iff the frame length differs. Otherwise it writes exactly `Frame(color, old buffer, data)` and adopts `data`. |
| Screen.Terminal.PrintTiles | src/automata.rs:83-86 | Draws the tiles mapped to dot (tile 1) or space (any other value). |
| Screen.EncodeUpdate | src/automata.rs:69 | One update is a cursor-position sequence: it opens with `ESC [`, its last two characters are the final byte `H` and the new character (that the digits between read back as row and column is `Screen.ReadEncoded`). |
| Screen.ColorPrefix | src/automata.rs:79 | The colour selection is `ESC[38;5;`, then the colour index in decimal (it reads back as that index), then `m` and the newline `println!` adds. |
| Screen.TileChar | src/automata.rs:84 | A tile is drawn as the dot exactly when it is 1, as a space otherwise. |
| Screen.TileChars | src/automata.rs:84 | A board's frame has one glyph per tile, and position i shows the dot exactly when tile i is 1. |
| Screen.DiffExact | src/automata.rs:65-73 | An update (y, x, c) is in the diff iff (x, y) is on screen, its character changed, and c is the new one. Updates come in row-major order, y outer and x inner, so no cell is written twice. |
| Screen.DiffEmptyIff | src/automata.rs:65-75 | No update is needed iff the new frame equals the previous one. |
| Screen.EncodeEmpty | src/automata.rs:69-75 | The written updates are empty iff there are no updates. |
| Screen.RedrawIsSilent | src/automata.rs:75-77 | Drawing the frame already on screen writes nothing, not even the colour selection. |
| Screen.ChangedFrameOutput | src/automata.rs:75-81 | A changed frame is written as the colour selection followed by the updates. |
| Screen.DecodeEncode | src/automata.rs:69-71 | The concatenated `ESC[y;xH c` sequences decode back to the updates. |
| Screen.FrameDecodes | src/automata.rs:75-81 | The whole output of a frame decodes back to exactly its diff. |
| Screen.TileCharsInjective | src/automata.rs:84 | For 0/1 boards the glyph mapping loses nothing: two boards give the same frame iff they are equal. |
| Screen.TwoByTwo | src/automata.rs:59-82 | Drawing "abcd" over a blank 2x2 screen writes four row-major updates after one colour selection; drawing it again writes nothing. |

## Left out

- `close_terminal` and `clear_terminal` (src/automata.rs:89-102): fixed escape-sequence prints with no logic.
- The writes to standard output and the flush (src/automata.rs:79-81): `DrawBuffer` returns the characters instead.
- The UTF-16 encode and decode round trip (src/automata.rs:71, 76): taken as the identity. The decode cannot fail on an encoded string.
- Board.Randomize: `thread_rng` is replaced by the parameter `draws`. Not modelled: that each draw is true with probability num/den, and the `u32` width of its arguments.
- Board.CountNeighbours: models the debug build, where the `u8` counter panics on overflow. A release build would wrap instead. The tile sums cannot reach 255 for 0/1 tiles. `isize` overflow of `x + 2` is not modelled; the step only asks for in-range cells.
- Rules.RuleFromString: iterates over characters, where the source slices bytes. For a non-ASCII character the source panics while slicing, at a byte offset; the model reports `NotADigit` at the character's position. Both refuse the string.
- Board, Terminal: the products `width * height` are unbounded. The source's `usize` multiplication is assumed not to overflow.
- Conversion to rule-table index and cursor coordinates (`as usize`, `as isize`) is exact in the model.
- All of `src/main.rs`: argument parsing, terminal-size lookup, the Ctrl-C handler and the render/step/sleep loop. This is glue around the core.
