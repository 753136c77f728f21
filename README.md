# mcre grid and `.mcrs` layout, modelled in Dafny

This project models the grid container of mcre and the binary layout its
`Grid::write` produces and its `Grid::read` consumes.

- A `Block` is one cell. Its whole state is a `u32` id (`Blocks.Block`).
- A `Grid` holds nested cell vectors indexed `[x][y][z]` and three dimension
  fields `x_len`, `y_len`, `z_len` (`Grids.Grid`). The vectors are a `seq` field
  that `GetMut` reassigns, and the dimensions are `u32` fields that `Read` overwrites.
- `write` emits 16 header bytes and then 4 bytes per block. The header is the
  magic `m c r s` followed by the three dimensions. The blocks go with x
  outermost and z innermost. `Grids.Encode` is this byte stream as a pure
  function. `Grids.Grid.Write` builds the same stream with the source's nested
  loops (`WritePlane` and `WriteRow` are its two inner loops) and is proved to
  equal `Encode`.
- `read` checks the magic, decodes the three dimensions and stores them. It
  never rebuilds the cells: the source marks that step as a TODO. `Grids.ParseHeader`
  is the parse as a pure function, and `Grids.Grid.Read` is the in-place update.

Modules: `LittleEndian` (little_endian.dfy), `Blocks` (block.dfy) and `Grids`
(grid.dfy).

Assumptions and departures:
- The source turns each `u32` into bytes by reinterpreting memory, so the
  byte order is the host's. The model fixes it to little-endian
  (`LittleEndian.EncodeU32` / `DecodeU32`).
- The comment at src/grid.rs:33-38 puts the dimensions at bytes 5-12 and the
  data from byte 13. The code writes three 4-byte integers, so the dimensions
  fill bytes 5-16 and the data starts at byte 17 (offset 16). The model follows the code.
- In the source, bad input makes `read` panic. A buffer shorter than 4 bytes
  fails the slice `buf[0..4]`, a wrong magic hits an explicit panic, and a
  buffer shorter than 16 bytes fails the slice `buf[4..16]`. Here these become
  `Err(Truncated)`, `Err(BadMagic)` and `Err(Truncated)`. In every error case
  nothing changes, as in the source, where the fields are only assigned at the end.
- `get` and `get_mut` index the vectors directly. Their precondition is
  therefore that the coordinates lie inside the actual vectors (`InBounds`). On
  a grid whose vectors match its dimensions, that is the same as
  `x < x_len && y < y_len && z < z_len` (`InBoundsIffBelowDims`).
- `write` loops over the vectors themselves, not over the dimension fields.
  `Encode` does the same, so it also describes a grid whose fields a `read` has
  changed. `ReadKeepsStaleCells` and `ReadOtherGrid` work through one
  example: a 1 by 2 by 3 grid reads the file of a 2 by 2 by 2 grid. Afterwards its
  fields disagree with its cells, and a second `write` emits a header whose
  dimensions do not match the body's length. This does not happen on every read
  of another grid's file: with no planes at all, the empty cells still fit any
  `y_len` and `z_len`.

## Model

| member | source | states |
|---|---|---|
| `LittleEndian.EncodeU32` | src/grid.rs:48 | a `u32` becomes exactly four bytes |
| `LittleEndian.DecodeU32` | src/grid.rs:81-83 | the read-side conversion of four bytes to a `u32`; `DecodeEncode` and `EncodeDecode` prove it is the inverse of `EncodeU32` |
| `LittleEndian.DecodeEncode` | src/grid.rs:81-83 | decoding the four bytes written for a `u32` gives that `u32` back |
| `LittleEndian.EncodeDecode` | src/grid.rs:81-83 | encoding the `u32` decoded from four bytes gives those bytes back, so decoding loses nothing |
| `LittleEndian.EncodeInjective` | src/grid.rs:54 | distinct ids are written as distinct byte groups |
| `Blocks.New` | src/block.rs:7-9 | any `u32` is accepted and stored as the id, and a block is determined by its id |
| `Blocks.Clone` | src/block.rs:12-15 | the clone has the same id and, the id being the whole state, equals the original |
| `Grids.NewCells` | src/grid.rs:20 | the vectors `new` allocates are exactly `x` by `y` by `z`, and every cell is a block of id 0 |
| `Grids.Grid.constructor` | src/grid.rs:18-23 | `new` sets the three dimension fields to its arguments and the cells to `NewCells`, so they match |
| `Grids.InBoundsIffBelowDims` | src/grid.rs:25-31 | on a grid whose cells match its fields, indexing succeeds exactly when each coordinate is below its dimension |
| `Grids.Grid.Get` | src/grid.rs:25-27 | `get` requires in-range coordinates and returns the cell at `[x][y][z]` |
| `Grids.UpdateCell` | src/grid.rs:29-31 | writing through the `get_mut` reference changes that one cell: every length and every other cell stays |
| `Grids.Grid.GetMut` | src/grid.rs:29-31 | an update through `get_mut` replaces the cell's block with the updated one, keeps the dimension fields and keeps cells and fields in agreement |
| `Grids.IdBytes` | src/grid.rs:53-56 | a block is written as exactly four bytes |
| `Grids.RowBytes` | src/grid.rs:52-57 | a row of `n` blocks is written as `4 * n` bytes |
| `Grids.MAGIC` | src/grid.rs:16 | `Grid::HEADER`, the four bytes `m c r s`; `Header` and `ParseHeader` write and check it |
| `Grids.PlaneBytes` | src/grid.rs:51-58 | the bytes the `for y in x` loop emits for one plane; `PlaneBytesLength` and `PlaneBytesAt` give their length and where each block sits |
| `Grids.CellBytes` | src/grid.rs:50-59 | the bytes the `for x in &self.grid` loop emits for all cells; `CellBytesLength` and `CellBytesAt` give their length and where each block sits |
| `Grids.Header` | src/grid.rs:44-48 | the header is 16 bytes: the magic, then `x_len`, `y_len`, `z_len` as 4-byte integers in that order |
| `Grids.Encode` | src/grid.rs:39-63 | the output of `write` begins with the header of the grid's dimension fields |
| `Grids.RowBytesAt` | src/grid.rs:52-56 | block `k` of a row is bytes `4k` to `4k + 4` of the row's output |
| `Grids.PlaneBytesAt` | src/grid.rs:51-57 | block `[j][k]` of a plane comes right after the rows before it and the first `k` blocks of its row |
| `Grids.CellBytesAt` | src/grid.rs:50-57 | block `[i][j][k]` comes right after the planes before it, the rows before it and the blocks before it, for any cell vectors |
| `Grids.PlaneBytesLength` | src/grid.rs:51-57 | a plane of rows of `z` blocks is written as `4 * z` bytes per row |
| `Grids.CellBytesLength` | src/grid.rs:50-59 | uniform planes of `y` rows of `z` blocks are written as `4 * z * y` bytes per plane |
| `Grids.EncodeLength` | src/grid.rs:44-59 | a grid whose cells match its fields is written as `16 + 4 * x_len * y_len * z_len` bytes |
| `Grids.EncodeCellAt` | src/grid.rs:50-57 | in such a grid's output, the id of cell `(i, j, k)` fills the four bytes at `16 + 4 * ((i * y_len + j) * z_len + k)`: x outermost, z innermost |
| `Grids.EncodeSingleBlock` | src/grid.rs:44-57 | a 1 by 1 by 1 grid holding id 7 is written as the 20 bytes `m c r s 1 0 0 0 1 0 0 0 1 0 0 0 7 0 0 0` |
| `Grids.WriteRow` | src/grid.rs:52-57 | the innermost loop appends the row's ids in z order |
| `Grids.WritePlane` | src/grid.rs:51-58 | the middle loop appends the plane's rows in y order |
| `Grids.Grid.Write` | src/grid.rs:39-63 | the loops of `write` produce exactly `Encode` of the grid's fields and cells |
| `Grids.ParseHeader` | src/grid.rs:72-83 | reading fails with `Truncated` below 4 bytes or below 16 bytes after a good magic, with `BadMagic` on a wrong magic, and succeeds exactly when there are 16 bytes starting with the magic |
| `Grids.HeaderRoundTrip` | src/grid.rs:79-89 | parsing the output of `write` returns that grid's three dimension fields, whatever the cells hold |
| `Grids.ParsedHeaderIsHeader` | src/grid.rs:79-83 | the first 16 bytes of any buffer that parses are exactly the header of the parsed dimensions |
| `Grids.Grid.Read` | src/grid.rs:65-92 | on success only the three dimension fields change, to the parsed values; on failure the error is returned and nothing changes; the cells are never written |
| `Grids.ReadKeepsStaleCells` | src/grid.rs:85-89 | one example on the pure functions: the file of a 2 by 2 by 2 grid parses to 2, 2, 2, while the cells of a 1 by 2 by 3 grid fit 1, 2, 3 but not 2, 2, 2, and encoding them under 2, 2, 2 gives a body of six blocks |
| `Grids.ReadOtherGrid` | src/grid.rs:65-92 | the same example on `Grid` objects: a new 1 by 2 by 3 grid reads a 2 by 2 by 2 grid's written file; the read succeeds, the fields become 2, 2, 2, the cells stay the 1 by 2 by 3 box and no longer match, and the next write is a header for 2 by 2 by 2 followed by only six blocks |
| `Grids.WriteThenRead` | src/main.rs:9-15 | writing a new 1 by 2 by 3 grid and reading the bytes back succeeds, so the `?` passes, and leaves its fields at 1, 2 and 3 |

## Left out

- File I/O: `File::create`, `BufWriter`, `File::open`, `fs::metadata` and their I/O errors. `write` returns the bytes it would write, and `read` takes the file's bytes.
- The single `f.read` in `read` may return fewer bytes than the file holds, leaving zeros at the end of the buffer. The model assumes the buffer holds the whole file.
- `mem::transmute`: the model reads and writes bytes explicitly in little-endian order. Host byte order and alignment are not modelled.
- The `println!` of the bad magic, and the panic itself: a panic is an `Err` result here.
- `Grid::tick`: it is `unimplemented!()` and has no behaviour to state.
- src/utils.rs is not part of this model. Its `binio::write` dumps raw memory, its `binio::read` does nothing, and `ParseError` only formats a message.
- `Grids.Grid.GetMut` models `get_mut` followed by one assignment through the returned reference. Holding the reference across other calls is a borrow-checker matter and is not modelled.
