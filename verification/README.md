# Game of Life universe with RLE pattern seeding

This project models the core of `wasm-game-of-life`, written in Rust, and
proves properties of that model. The core has two parts:

- **The RLE pattern reader** (`src/parsers.rs`). A pattern such as
  `2bobo23$4b2o` is a run of symbols. Each symbol has an optional decimal
  count followed by a tag: `b` for dead cells, `o` for live cells, `$` for
  end of row. A missing count means 1.
  - The symbol parser is built from parser combinators: a maximal digit
    run, its value as an unsigned 32-bit number, then one of the three
    tags.
  - The pattern parser reads one or more symbols.
  - The pattern builder runs the symbols over a cursor `(x, y)`. `b`
    moves the cursor right. `o` emits one coordinate per live cell and
    moves right. `$` moves to column 0 and down by the count.
- **The universe** (`src/lib.rs`).
  - A `Shape` is the coordinate list decoded from a pattern. It can be
    translated.
  - A `Universe` holds a width, a height and a store of `width * height`
    cells in row-major order. Its edges wrap around.
  - It can be seeded with coordinates or with an RLE pattern placed at
    an offset.
  - A tick advances every cell by the standard B3/S23 rule, read from the
    previous generation.

The files:

| file | module | contents |
|---|---|---|
| `parsers.dfy` | `Parsers` | symbols, the symbol and pattern parsers, the pattern builder (`GrowPattern`) and its fold `Build` |
| `rle_encoding.dfy` | `RleEncoding` | a canonical RLE writer, the partner of the parsers; round-trip lemmas; the parsers' own test vectors |
| `shapes.dfy` | `Shapes` | `Decode` (the meaning of `Shape::from_rle_string`), the `Shape` class with `Shift`, decoding lemmas |
| `universe.dfy` | `Universes` | the index map, the neighbour count, the rule, `NextGeneration`, `Seed`, the `Universe` class and their lemmas |

Stateful code keeps its form:

- `Universe` is a class whose cells are an `array<bool>`.
- `tick` is a pair of nested loops that write into a copy of the store.
- `Shape::shift` updates the coordinate list of a `Shape` object.
- `grow_pattern` is a method with a loop over the live run.

Each method with a loop is proved against a specification function:
`NextGeneration`, `NeighborCount`, `Seed`, `Shifted`,
`Advance`/`Emitted`/`Build` or `Decode`. The lemmas state what those
functions mean. The constructors and the dimension setters state their
new state directly.

### Behaviour of the code worth knowing

- **Neighbour count on a 1-wide or 1-high axis.**
  - The counting loop uses the unsigned offsets `n - 1, 0, 1` along each
    axis and skips only the literal pair `(0, 0)`.
  - On a 1×1 grid the offsets along each axis are `0, 0, 1`. Four of the
    nine pairs are skipped and the other five all read the cell itself.
  - So a lone live cell counts itself 5 times (its Moore count would be
    8) and dies (`LoneCellCountsItself`).
  - On every grid at least 2 wide and 2 high the count is exactly the
    toroidal Moore count (`NeighborCountIsMoore`).
- **Trailing text.**
  - The pattern parser stops at the first text that does not start a
    symbol. The decoder ignores the unconsumed remainder.
  - So `2bx` decodes to no live cells and is not rejected
    (`DecodeDropsTrailingText`, `DecodeIgnoresRemainder`).
- **Coordinates are transposed.**
  - `set_cells` reduces `x` modulo the width and uses it as the **row**.
    It reduces `y` modulo the height and uses it as the column.
  - On a grid no wider than it is high every coordinate lands in the
    store (`NarrowGridInRange`).
  - On grids wider than they are high some do not, and writing them
    would abort. This is the precondition `InRange`
    (`NonSquareOutOfRange`).
- **A `$` of count 0** returns the cursor to column 0 of the same row. A
  later `o` can then emit a coordinate that was already emitted
  (`DecodeRepeatsAfterEmptyRowSkip`). Without such a symbol the output is
  strictly increasing in row-major order (`BuildRowMajor`).
- **Decoding errors.**
  - Two cases abort the program: a pattern whose first symbol is
    malformed (the `unwrap` of the parse result), and a count too large
    for 32 bits (the `unwrap` of the number conversion).
  - Here both are returned as `Rejected` values. An oversized count
    rejects the pattern anywhere in the run of symbols that parse,
    before the first malformed one (`DecodeRejectsOverflow`,
    `DecodeOverflowExample`, `DecodeOverflowAfterExplicitOne`). After a
    malformed symbol it is never read (`DecodeIgnoresOverflowAfterMalformed`).
  - `SetRleShape` reports them with `ok == false` and leaves the grid
    unchanged.

## Model

| member | source | states |
|---|---|---|
| `Parsers.DigitRunIsMaximal` | src/parsers.rs:32 | the digit prefix the symbol parser takes is all digits and is followed by a non-digit or the end of input (it is maximal) |
| `Parsers.ParseRleSymbol` | src/parsers.rs:31-45 | a successful symbol parse consumes at least one character, returns a suffix of its input as the remainder and a count that fits in 32 bits |
| `Parsers.ParsedSymbol` | src/parsers.rs:31-45 | on success the consumed text is the maximal digit run followed by the symbol's tag; the count is 1 for an empty run and the run's decimal value otherwise |
| `Parsers.SymbolErrors` | src/parsers.rs:32-44 | the number conversion aborts exactly when the digit run is non-empty and its value exceeds 2^32 - 1, before the tag is looked at; otherwise the parse fails exactly when the run is not followed by `$`, `b` or `o` |
| `Parsers.ParseMany` | src/parsers.rs:47-49 | repeating the symbol parser never fails: a failing symbol ends the run without error |
| `Parsers.ParseManyStops` | src/parsers.rs:47-49 | the repetition stops on a suffix of its input at which the symbol parser fails |
| `Parsers.ParseRleString` | src/parsers.rs:47-49 | the pattern parser fails exactly when the first symbol fails; otherwise it yields at least one symbol, starting with that first symbol |
| `Parsers.ParseRleStringStops` | src/parsers.rs:47-49 | a successful pattern parse consumes input and stops at a strictly shorter suffix where no further symbol parses |
| `Parsers.ParseManyOverflowAfterRun` | src/parsers.rs:35 | after any number of symbols that parse, in any spelling, a count that does not fit in 32 bits aborts the whole repetition with that symbol's digits |
| `Parsers.ParseRleStringOverflowAfterRun` | src/parsers.rs:47-49 | the pattern parser likewise aborts on an oversized count, on the first symbol or after any symbols that parse |
| `Parsers.GrowPattern` | src/parsers.rs:12-28 | one symbol moves the cursor as `Advance` says and appends exactly the coordinates of `Emitted`: for `o` of count i, the cells (x, y) to (x + i - 1, y) in order |
| `Parsers.GrowPatternSteps` | src/parsers.rs:80-96 | from (0, 0), `2b` then `$` then `2o` leave the cursor at (2, 1) and emit (0, 1) and (1, 1) |
| `Parsers.BuildExtends` | src/parsers.rs:12-28 | running the builder only appends to the cell list, and the cursor never moves up |
| `Parsers.BuildLength` | src/parsers.rs:12-28 | the builder emits exactly as many coordinates as the `o` counts add up to |
| `Parsers.BuildRowMajor` | src/parsers.rs:12-28 | without a `$` of count 0 the emitted coordinates are strictly increasing in row-major order, hence pairwise distinct |
| `RleEncoding.DecimalString` | src/parsers.rs:33-36 | the written count is a non-empty digit string whose decimal value is the count |
| `RleEncoding.ParseSymbolRoundTrip` | src/parsers.rs:31-45 | parsing a written symbol whose count fits in 32 bits gives back that symbol, with the following text as remainder |
| `RleEncoding.ParseManyRoundTrip` | src/parsers.rs:47-49 | repeating the symbol parser over written symbols, followed by text that does not start a symbol, gives back all the symbols and stops at that text |
| `RleEncoding.ParseRleStringRoundTrip` | src/parsers.rs:47-49 | the pattern parser inverts the writer on every non-empty symbol list whose counts fit in 32 bits, and leaves trailing non-symbol text unconsumed |
| `RleEncoding.ParseSymbolExamples` | src/parsers.rs:56-59 | `$bo` gives `Dollar(1)` with `bo` left; `21$bo` gives `Dollar(21)` with `bo` left; `0b` gives `B(0)` |
| `RleEncoding.ParseSymbolExplicitOne` | src/parsers.rs:60 | `1bo` gives `B(1)` with `o` left |
| `RleEncoding.ParseRleStringTestPattern` | src/parsers.rs:63-77 | `2bobo23$` parses completely to `B(2) O(1) B(1) O(1) Dollar(23)` |
| `RleEncoding.ParseRleStringExample` | src/lib.rs:207-215 | `2bobo23$4b2o` parses completely to its seven symbols |
| `Shapes.FromRleString` | src/lib.rs:35-44 | decoding runs the builder from (0, 0) over the parsed symbols and drops the unparsed remainder; malformed first symbols and overflowing counts are rejected |
| `Shapes.Shifted` | src/lib.rs:46-51 | translation keeps the length and moves every coordinate by (dx, dy), each at its own index |
| `Shapes.Shape.constructor` | src/lib.rs:29-32 | a shape holds the given coordinate list |
| `Shapes.Shape.Shift` | src/lib.rs:46-51 | shifting replaces the shape's coordinates by their translation |
| `Shapes.ShiftedByZero` | src/lib.rs:46-51 | shifting by (0, 0) changes nothing |
| `Shapes.ShiftedTwice` | src/lib.rs:46-51 | two shifts compose into one shift by the sum of the offsets |
| `Shapes.ShiftedExample` | src/lib.rs:198-205 | shifting (0, 0), (1, 1), (13, 1) by (1, 2) gives (1, 2), (2, 3), (14, 3) |
| `Shapes.DecodeIgnoresRemainder` | src/lib.rs:35-44 | a written pattern followed by any text that does not start a symbol decodes to the builder's output for exactly those symbols |
| `Shapes.DecodeRejectsOverflow` | src/lib.rs:39 | a pattern with a count that does not fit in 32 bits, after any number of symbols that parse, is rejected with that count's digits |
| `Shapes.SymbolOverflowExample` | src/parsers.rs:32-36 | a count of 2^32 aborts the symbol parser, before the tag is read |
| `Shapes.ParseOverflowExample` | src/parsers.rs:47-49 | `b4294967296o` aborts the pattern parser on its second symbol |
| `Shapes.DecodeOverflowExample` | src/lib.rs:35-44 | `b4294967296o` is rejected with the digits `4294967296` |
| `Shapes.ParseOverflowAfterExplicitOne` | src/parsers.rs:47-49 | `1b4294967296o` aborts the pattern parser on its second symbol |
| `Shapes.DecodeOverflowAfterExplicitOne` | src/lib.rs:35-44 | `1b4294967296o`, whose first count is written out, is rejected with the digits `4294967296` |
| `Shapes.DecodeIgnoresOverflowAfterMalformed` | src/lib.rs:39 | in `bx4294967296o` the run stops at `x`, so the oversized count is never read and the pattern decodes to no live cells |
| `Shapes.DecodeRejectsBadStart` | src/lib.rs:39 | a pattern whose first symbol is malformed is rejected as malformed |
| `Shapes.DecodeShape` | src/lib.rs:35-44 | a parsed pattern decodes to one coordinate per live cell, in row-major order when it has no `$` of count 0 |
| `Shapes.DecodeExample` | src/lib.rs:207-215 | `2bobo23$4b2o` decodes to (2, 0), (4, 0), (4, 23), (5, 23) |
| `Shapes.DecodeDropsTrailingText` | src/lib.rs:39 | `2bx` decodes to no live cells instead of being rejected |
| `Shapes.DecodeRepeatsAfterEmptyRowSkip` | src/parsers.rs:23-26 | `o0$o` decodes to (0, 0) twice |
| `Universes.IndexDivMod` | src/lib.rs:68-70 | inside a row, the store index gives back its row (quotient by the width) and column (remainder) |
| `Universes.IndexInRange` | src/lib.rs:68-70 | a cell inside the grid has an index inside the store |
| `Universes.Rule` | src/lib.rs:129-144 | the four arms of the rule amount to: the next state is alive exactly for a live cell with 2 or 3 live neighbours or a dead cell with 3 |
| `Universes.NextGenerationAt` | src/lib.rs:120-150 | each cell of the next generation is the rule applied to that cell and its neighbour count, both taken from the current generation |
| `Universes.Seed` | src/lib.rs:59-66 | after seeding, a cell is alive exactly when it was alive before or some listed coordinate maps to it |
| `Universes.Universe.constructor` | src/lib.rs:95-102 | a new universe has the given height and width and `width * height` dead cells |
| `Universes.Universe.SetWidth` | src/lib.rs:104-107 | changing the width keeps the height and replaces the store by `width * height` dead cells |
| `Universes.Universe.SetHeight` | src/lib.rs:109-112 | changing the height keeps the width and replaces the store by `width * height` dead cells |
| `Universes.Universe.SetCells` | src/lib.rs:59-66 | seeding turns on exactly the cells `Seed` names and changes nothing else |
| `Universes.Universe.LiveNeighborCount` | src/lib.rs:72-89 | the loop's count equals the wrapped neighbour count over the offset pairs other than (0, 0), and is at most 8 |
| `Universes.Universe.Tick` | src/lib.rs:120-150 | a tick keeps the dimensions and replaces the store by a new array holding the next generation of the old one |
| `Universes.Universe.TickRows` | src/lib.rs:123-148 | the outer loop of the tick fills the copy with the next generation, row by row |
| `Universes.Universe.TickRow` | src/lib.rs:124-147 | the inner loop of the tick fills one more row of the copy with the next generation and keeps the rest of the copy as it was |
| `Universes.Universe.SetRleShape` | src/lib.rs:114-118 | placing a pattern seeds its decoded, translated coordinates; a pattern that cannot be decoded is reported and leaves the grid unchanged |
| `Universes.NeighborCountAtMostEight` | src/lib.rs:72-89 | the neighbour count never exceeds 8 |
| `Universes.NeighborCountIsMoore` | src/lib.rs:72-89 | on grids at least 2 wide and 2 high the count is the toroidal Moore neighbourhood count |
| `Universes.NeighborCountOfDead` | src/lib.rs:72-89 | on a grid with no live cell every neighbour count is 0 |
| `Universes.DeadGridStaysDead` | src/lib.rs:120-150 | a grid with no live cell is unchanged by a tick |
| `Universes.LoneCellCountsItself` | src/lib.rs:72-89 | on a 1×1 grid a lone live cell counts itself 5 times (the Moore count is 8) and dies |
| `Universes.NarrowGridInRange` | src/lib.rs:59-66 | on a grid no wider than it is high every coordinate lands inside the store |
| `Universes.NonSquareOutOfRange` | src/lib.rs:59-70 | on a grid 3 wide and 2 high, (2, 1) maps to index 7, outside the 6-cell store |
| `Universes.SeedIgnoresOrder` | src/lib.rs:59-66 | seeding depends only on which coordinates are listed, not on their order or repetitions |
| `Universes.SeedDiagonalExample` | src/lib.rs:188-196 | seeding (0, 0) and (1, 1) into an empty 2 × 2 grid sets cells 0 and 3 only |

## Left out

- Fixed-width arithmetic. Widths, heights, counts, cursor positions, shifted coordinates and store indices are unbounded naturals. The wrap-around or overflow abort of the 32-bit sums and products is not modelled: `width * height`, `row * width + column`, `offset.0 + i`, `cell.0 + shift.0`, `row + delta_row`. The only 32-bit limit modelled is the conversion of a count, which aborts above 2^32 - 1.
- Zero dimensions. With a width or height of 0, `height - 1` underflows in the neighbour count, and seeding a non-empty coordinate list reaches `% 0` and aborts. `Universes.Universe.LiveNeighborCount` requires both dimensions to be positive. `Universes.Universe.SetCells` and `Universes.Universe.SetRleShape` require it too, so they do not cover the one case the code survives on such a grid: an empty list, or a pattern that decodes to no live cells. `Tick` on such a grid runs no iteration and keeps its empty store.
- Aborting writes. Writing a seeded coordinate outside the store aborts in the bit vector. This is the precondition `InRange` of `SetCells` and `SetRleShape`, not a modelled failure.
- The bit vector is an `array<bool>` of the same length. Its packing into words is not modelled.
- `Universe::get_cells`, `Universe::render` and the `Display` implementation are not modelled. They only expose or print the store.
- The JavaScript bindings, the allocator choice, the panic hook set in `new` and the `utils` module are not part of this model.
- `Parsers.ParseRleSymbol`: nom's error values (error kinds, incomplete input) are reduced to the input at which the tag was expected (`Failed`) and the digits that did not fit (`Overflow`).
- `Universes.Universe.TickRows` and `Universes.Universe.TickRow` are the two nested loops of `tick`, split into methods. The order in which cells are read and written is the same.
