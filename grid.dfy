/** The grid container and its `.mcrs` byte layout.

    Layout produced by `Grid::write`:
      bytes 0..4    the magic 'm' 'c' 'r' 's'
      bytes 4..16   x_len, y_len, z_len, each a little-endian u32
      bytes 16..    every block id as a little-endian u32, x outermost, then y,
                    then z innermost (the order of the nested cell vectors).
    `Grid::read` only checks the magic and decodes the three dimensions; it does
    not rebuild the cells. */
module Grids {
  import opened LittleEndian
  import opened Blocks

  datatype Result<T, E> = Ok(value: T) | Err(error: E)

  /** Why a header could not be read: the buffer ends before the slice the code
      takes (`buf[0..4]` or `buf[4..16]`), or its first four bytes are not the magic. */
  datatype ReadError = Truncated | BadMagic

  /** The three dimension fields of a grid. */
  datatype Dims = Dims(x: u32, y: u32, z: u32)

  /** The nested cell vectors, indexed `[x][y][z]`. */
  type Cells = seq<seq<seq<Block>>>

  /** `Grid::HEADER`. */
  const MAGIC: seq<byte> := ['m' as int, 'c' as int, 'r' as int, 's' as int]

  // ---------------------------------------------------------------------------
  // Shape of the cell vectors

  /** Every row of `plane` holds `z` blocks. */
  predicate Rows(plane: seq<seq<Block>>, z: nat)
  {
    forall j :: 0 <= j < |plane| ==> |plane[j]| == z
  }

  /** Every plane of `cells` holds `y` rows of `z` blocks. */
  predicate Uniform(cells: Cells, y: nat, z: nat)
  {
    forall i :: 0 <= i < |cells| ==> |cells[i]| == y && Rows(cells[i], z)
  }

  /** The cell vectors form an `x × y × z` box matching `d`. */
  predicate Shaped(cells: Cells, d: Dims)
  {
    |cells| == d.x && Uniform(cells, d.y, d.z)
  }

  /** Indexing `cells[x][y][z]` does not panic. */
  predicate InBounds(cells: Cells, x: nat, y: nat, z: nat)
  {
    x < |cells| && y < |cells[x]| && z < |cells[x][y]|
  }

  /** `a` and `b` have the same nesting lengths everywhere. */
  predicate SameShape(a: Cells, b: Cells)
  {
    |a| == |b| &&
    forall i :: 0 <= i < |a| ==>
      |a[i]| == |b[i]| &&
      forall j :: 0 <= j < |a[i]| ==> |a[i][j]| == |b[i][j]|
  }

  /** On cells shaped like `d`, indexing succeeds exactly for coordinates below
      the dimension fields. */
  lemma InBoundsIffBelowDims(cells: Cells, d: Dims, x: nat, y: nat, z: nat)
    requires Shaped(cells, d)
    ensures InBounds(cells, x, y, z) <==> x < d.x && y < d.y && z < d.z
  {
    if x < |cells| {
      assert |cells[x]| == d.y && Rows(cells[x], d.z);
    }
  }

  /** The cells `Grid::new` allocates: `x` planes of `y` rows of `z` blocks of id 0. */
  function NewCells(d: Dims): (r: Cells)
    ensures Shaped(r, d)
    ensures forall i: nat, j: nat, k: nat :: InBounds(r, i, j, k) ==> r[i][j][k] == New(0)
  {
    seq(d.x, _ => seq(d.y, _ => seq(d.z, _ => New(0))))
  }

  /** The cells after writing `b` through the reference `get_mut(x, y, z)` returns:
      the one cell changes, every other cell and every length stays. */
  function UpdateCell(cells: Cells, x: nat, y: nat, z: nat, b: Block): (r: Cells)
    requires InBounds(cells, x, y, z)
    ensures SameShape(r, cells)
    ensures r[x][y][z] == b
    ensures forall i: nat, j: nat, k: nat :: InBounds(cells, i, j, k) && !(i == x && j == y && k == z) ==>
              r[i][j][k] == cells[i][j][k]
  {
    cells[x := cells[x][y := cells[x][y][z := b]]]
  }

  /** Cells of the same shape stay shaped like the same dimensions. */
  lemma SameShapeShaped(a: Cells, b: Cells, d: Dims)
    requires SameShape(a, b) && Shaped(b, d)
    ensures Shaped(a, d)
  {
    forall i | 0 <= i < |a|
      ensures |a[i]| == d.y && Rows(a[i], d.z)
    {
      assert |b[i]| == d.y && Rows(b[i], d.z);
    }
  }

  // ---------------------------------------------------------------------------
  // Serialisation (`Grid::write`)

  /** The four bytes `write` emits for one block: its id, which is the block's
      whole state. */
  function IdBytes(b: Block): (r: seq<byte>)
    ensures |r| == 4
  {
    EncodeU32(b.id)
  }

  /** The bytes of one row, block after block. */
  function RowBytes(row: seq<Block>): (r: seq<byte>)
    ensures |r| == 4 * |row|
  {
    if row == [] then [] else RowBytes(row[..|row| - 1]) + IdBytes(row[|row| - 1])
  }

  /** The bytes of one plane, row after row. */
  function PlaneBytes(plane: seq<seq<Block>>): (r: seq<byte>)
  {
    if plane == [] then [] else PlaneBytes(plane[..|plane| - 1]) + RowBytes(plane[|plane| - 1])
  }

  /** The bytes of all cells, plane after plane: x outermost, z innermost. */
  function CellBytes(cells: Cells): (r: seq<byte>)
  {
    if cells == [] then [] else CellBytes(cells[..|cells| - 1]) + PlaneBytes(cells[|cells| - 1])
  }

  /** The sixteen header bytes: the magic, then the dimensions in x, y, z order. */
  function Header(d: Dims): (h: seq<byte>)
    ensures |h| == 16 && h[..4] == MAGIC
    ensures h[4..8] == EncodeU32(d.x) && h[8..12] == EncodeU32(d.y) && h[12..16] == EncodeU32(d.z)
  {
    var h := MAGIC + EncodeU32(d.x) + EncodeU32(d.y) + EncodeU32(d.z);
    assert h[12..16] == EncodeU32(d.z);
    h
  }

  /** The whole byte stream `write` produces for dimension fields `d` and cell
      vectors `cells`. The header takes the fields; the body walks the vectors
      themselves, whatever their lengths. */
  function Encode(d: Dims, cells: Cells): (r: seq<byte>)
    ensures |r| >= 16 && r[..16] == Header(d)
  {
    Header(d) + CellBytes(cells)
  }

  lemma RowBytesStep(row: seq<Block>, k: nat)
    requires k < |row|
    ensures RowBytes(row[..k + 1]) == RowBytes(row[..k]) + IdBytes(row[k])
  {
    assert row[..k + 1][..k] == row[..k];
  }

  lemma PlaneBytesStep(plane: seq<seq<Block>>, j: nat)
    requires j < |plane|
    ensures PlaneBytes(plane[..j + 1]) == PlaneBytes(plane[..j]) + RowBytes(plane[j])
  {
    assert plane[..j + 1][..j] == plane[..j];
  }

  lemma CellBytesStep(cells: Cells, i: nat)
    requires i < |cells|
    ensures CellBytes(cells[..i + 1]) == CellBytes(cells[..i]) + PlaneBytes(cells[i])
  {
    assert cells[..i + 1][..i] == cells[..i];
  }

  lemma SliceLeft<T>(p: seq<T>, q: seq<T>, a: nat, b: nat)
    requires a <= b <= |p|
    ensures (p + q)[a..b] == p[a..b]
  {
  }

  lemma SliceRight<T>(p: seq<T>, q: seq<T>, a: nat, b: nat)
    requires a <= b <= |q|
    ensures (p + q)[|p| + a..|p| + b] == q[a..b]
  {
  }

  /** Serialising the first `m` blocks of a row gives the first `4 * m` bytes
      of the row's serialisation. */
  lemma {:induction false} RowBytesPrefix(row: seq<Block>, m: nat)
    requires m <= |row|
    ensures RowBytes(row)[..4 * m] == RowBytes(row[..m])
  {
    if m == |row| {
      assert row[..m] == row;
    } else {
      var init := row[..|row| - 1];
      assert RowBytes(row) == RowBytes(init) + IdBytes(row[|row| - 1]);
      RowBytesPrefix(init, m);
      assert init[..m] == row[..m];
      SliceLeft(RowBytes(init), IdBytes(row[|row| - 1]), 0, 4 * m);
    }
  }

  /** Serialising the first `m` rows of a plane gives a prefix of the plane's
      serialisation. */
  lemma {:induction false} PlaneBytesPrefix(plane: seq<seq<Block>>, m: nat)
    requires m <= |plane|
    ensures |PlaneBytes(plane[..m])| <= |PlaneBytes(plane)|
    ensures PlaneBytes(plane)[..|PlaneBytes(plane[..m])|] == PlaneBytes(plane[..m])
  {
    if m == |plane| {
      assert plane[..m] == plane;
    } else {
      var init := plane[..|plane| - 1];
      assert PlaneBytes(plane) == PlaneBytes(init) + RowBytes(plane[|plane| - 1]);
      PlaneBytesPrefix(init, m);
      assert init[..m] == plane[..m];
      SliceLeft(PlaneBytes(init), RowBytes(plane[|plane| - 1]), 0, |PlaneBytes(plane[..m])|);
    }
  }

  /** Serialising the first `m` planes gives a prefix of the cells' serialisation. */
  lemma {:induction false} CellBytesPrefix(cells: Cells, m: nat)
    requires m <= |cells|
    ensures |CellBytes(cells[..m])| <= |CellBytes(cells)|
    ensures CellBytes(cells)[..|CellBytes(cells[..m])|] == CellBytes(cells[..m])
  {
    if m == |cells| {
      assert cells[..m] == cells;
    } else {
      var init := cells[..|cells| - 1];
      assert CellBytes(cells) == CellBytes(init) + PlaneBytes(cells[|cells| - 1]);
      CellBytesPrefix(init, m);
      assert init[..m] == cells[..m];
      SliceLeft(CellBytes(init), PlaneBytes(cells[|cells| - 1]), 0, |CellBytes(cells[..m])|);
    }
  }

  /** When `whole` starts with `p + q` and bytes `a..a + 4` of `q` are `v`, the
      same four bytes sit at offset `o == |p| + a` of `whole`. */
  lemma Embedded<T>(whole: seq<T>, p: seq<T>, q: seq<T>, v: seq<T>, a: nat, o: nat)
    requires |p| + |q| <= |whole| && whole[..|p| + |q|] == p + q
    requires a + 4 <= |q| && q[a..a + 4] == v
    requires o == |p| + a
    ensures o + 4 <= |whole| && whole[o..o + 4] == v
  {
    assert whole[o..o + 4] == whole[..|p| + |q|][o..o + 4];
    SliceRight(p, q, a, a + 4);
  }

  /** Block `k` of a row occupies bytes `4 * k` up to `4 * k + 4` of the row's bytes. */
  lemma RowBytesAt(row: seq<Block>, k: nat)
    requires k < |row|
    ensures RowBytes(row)[4 * k..4 * k + 4] == IdBytes(row[k])
  {
    var q := IdBytes(row[k]);
    RowBytesPrefix(row, k + 1);
    RowBytesStep(row, k);
    assert q[0..0 + 4] == q;
    Embedded(RowBytes(row), RowBytes(row[..k]), q, q, 0, 4 * k);
  }

  /** Block `[j][k]` of a plane follows the bytes of rows `0..j` and of the
      first `k` blocks of row `j`. */
  lemma PlaneBytesAt(plane: seq<seq<Block>>, j: nat, k: nat)
    requires j < |plane| && k < |plane[j]|
    ensures |PlaneBytes(plane[..j])| + 4 * k + 4 <= |PlaneBytes(plane)|
    ensures PlaneBytes(plane)[|PlaneBytes(plane[..j])| + 4 * k..|PlaneBytes(plane[..j])| + 4 * k + 4]
            == IdBytes(plane[j][k])
  {
    PlaneBytesPrefix(plane, j + 1);
    PlaneBytesStep(plane, j);
    RowBytesAt(plane[j], k);
    Embedded(PlaneBytes(plane), PlaneBytes(plane[..j]), RowBytes(plane[j]), IdBytes(plane[j][k]),
             4 * k, |PlaneBytes(plane[..j])| + 4 * k);
  }

  /** Plane `i` is serialised right after planes `0..i`. */
  lemma PlaneInCells(cells: Cells, i: nat)
    requires i < |cells|
    ensures |CellBytes(cells[..i])| + |PlaneBytes(cells[i])| <= |CellBytes(cells)|
    ensures CellBytes(cells)[..|CellBytes(cells[..i])| + |PlaneBytes(cells[i])|]
            == CellBytes(cells[..i]) + PlaneBytes(cells[i])
  {
    CellBytesPrefix(cells, i + 1);
    CellBytesStep(cells, i);
  }

  /** Block `[i][j][k]` follows the bytes of planes `0..i`, of rows `0..j` of
      plane `i` and of the first `k` blocks of that row. This holds for any cell
      vectors, matching the dimension fields or not. */
  lemma CellBytesAt(cells: Cells, i: nat, j: nat, k: nat)
    requires InBounds(cells, i, j, k)
    ensures |CellBytes(cells[..i])| + |PlaneBytes(cells[i][..j])| + 4 * k + 4 <= |CellBytes(cells)|
    ensures CellBytes(cells)[|CellBytes(cells[..i])| + |PlaneBytes(cells[i][..j])| + 4 * k..
                             |CellBytes(cells[..i])| + |PlaneBytes(cells[i][..j])| + 4 * k + 4]
            == IdBytes(cells[i][j][k])
  {
    PlaneInCells(cells, i);
    PlaneBytesAt(cells[i], j, k);
    Embedded(CellBytes(cells), CellBytes(cells[..i]), PlaneBytes(cells[i]), IdBytes(cells[i][j][k]),
             |PlaneBytes(cells[i][..j])| + 4 * k, |CellBytes(cells[..i])| + |PlaneBytes(cells[i][..j])| + 4 * k);
  }

  // ---------------------------------------------------------------------------
  // Lengths and offsets when the cells match the dimensions

  lemma MulStep(a: nat, n: nat)
    requires n > 0
    ensures a * (n - 1) + a == a * n
  {
  }

  /** The position of cell `(i, j, k)` when cells are counted with x outermost
      and z innermost in planes of `y` rows of `z` cells. */
  function CellIndex(y: nat, z: nat, i: nat, j: nat, k: nat): (n: nat)
  {
    (i * y + j) * z + k
  }

  lemma OffsetArith(y: nat, z: nat, i: nat, j: nat, k: nat)
    ensures 4 * z * y * i + 4 * z * j + 4 * k == 4 * CellIndex(y, z, i, j, k)
  {
    assert (i * y + j) * z == i * y * z + j * z;
  }

  lemma Volume(x: nat, y: nat, z: nat)
    ensures 4 * z * y * x == 4 * x * y * z
  {
  }

  /** A plane of rows of `z` blocks takes `4 * z` bytes per row. */
  lemma {:induction false} PlaneBytesLength(plane: seq<seq<Block>>, z: nat)
    requires Rows(plane, z)
    ensures |PlaneBytes(plane)| == 4 * z * |plane|
  {
    if plane != [] {
      var init := plane[..|plane| - 1];
      assert PlaneBytes(plane) == PlaneBytes(init) + RowBytes(plane[|plane| - 1]);
      PlaneBytesLength(init, z);
      MulStep(4 * z, |plane|);
    }
  }

  /** Uniform cells of `y` rows of `z` blocks per plane take `4 * z * y` bytes per plane. */
  lemma {:induction false} CellBytesLength(cells: Cells, y: nat, z: nat)
    requires Uniform(cells, y, z)
    ensures |CellBytes(cells)| == 4 * z * y * |cells|
  {
    if cells != [] {
      var last := cells[|cells| - 1];
      var init := cells[..|cells| - 1];
      assert CellBytes(cells) == CellBytes(init) + PlaneBytes(last);
      assert Uniform(init, y, z);
      CellBytesLength(init, y, z);
      assert Rows(last, z) && |last| == y;
      PlaneBytesLength(last, z);
      MulStep(4 * z * y, |cells|);
    }
  }

  /** A grid whose cells match its dimensions serialises to `16 + 4 * x * y * z`
      bytes: four bytes per block after the header. */
  lemma EncodeLength(d: Dims, cells: Cells)
    requires Shaped(cells, d)
    ensures |Encode(d, cells)| == 16 + 4 * d.x * d.y * d.z
  {
    CellBytesLength(cells, d.y, d.z);
    Volume(d.x, d.y, d.z);
  }

  /** In the output of a grid whose cells match its dimensions, the id of cell
      `(i, j, k)` occupies the four bytes at offset `16 + 4 * ((i * y + j) * z + k)`
      and decodes back to that id. */
  lemma EncodeCellAt(d: Dims, cells: Cells, i: nat, j: nat, k: nat)
    requires Shaped(cells, d) && i < d.x && j < d.y && k < d.z
    ensures 16 + 4 * CellIndex(d.y, d.z, i, j, k) + 4 <= |Encode(d, cells)|
    ensures Encode(d, cells)[16 + 4 * CellIndex(d.y, d.z, i, j, k)..16 + 4 * CellIndex(d.y, d.z, i, j, k) + 4]
            == EncodeU32(cells[i][j][k].id)
    ensures DecodeU32(Encode(d, cells)[16 + 4 * CellIndex(d.y, d.z, i, j, k)..16 + 4 * CellIndex(d.y, d.z, i, j, k) + 4])
            == cells[i][j][k].id
  {
    assert |cells[i]| == d.y && Rows(cells[i], d.z);
    CellBytesAt(cells, i, j, k);
    assert Uniform(cells[..i], d.y, d.z);
    CellBytesLength(cells[..i], d.y, d.z);
    assert Rows(cells[i][..j], d.z);
    PlaneBytesLength(cells[i][..j], d.z);
    OffsetArith(d.y, d.z, i, j, k);
    var off := 4 * CellIndex(d.y, d.z, i, j, k);
    SliceRight(Header(d), CellBytes(cells), off, off + 4);
    DecodeEncode(cells[i][j][k].id);
  }

  /** A `1 × 1 × 1` grid holding a block of id 7 serialises to twenty bytes. */
  lemma EncodeSingleBlock()
    ensures Encode(Dims(1, 1, 1), [[[Block(7)]]])
            == ['m' as int, 'c' as int, 'r' as int, 's' as int, 1, 0, 0, 0, 1, 0, 0, 0, 1, 0, 0, 0, 7, 0, 0, 0]
  {
    var row := [Block(7)];
    assert RowBytes(row) == RowBytes(row[..0]) + IdBytes(Block(7));
    assert PlaneBytes([row]) == PlaneBytes([row][..0]) + RowBytes(row);
    assert CellBytes([[row]]) == CellBytes([[row]][..0]) + PlaneBytes([row]);
  }

  /** The middle loop of `Grid::write`: appends the rows of one plane in y order. */
  method WritePlane(out: seq<byte>, plane: seq<seq<Block>>) returns (r: seq<byte>)
    ensures r == out + PlaneBytes(plane)
  {
    r := out;
    var j := 0;
    while j < |plane|
      invariant 0 <= j <= |plane|
      invariant r == out + PlaneBytes(plane[..j])
    {
      r := WriteRow(r, plane[j]);
      PlaneBytesStep(plane, j);
      j := j + 1;
    }
    assert plane[..j] == plane;
  }

  /** The innermost loop of `Grid::write`: appends the ids of one row in z order. */
  method WriteRow(out: seq<byte>, row: seq<Block>) returns (r: seq<byte>)
    ensures r == out + RowBytes(row)
  {
    r := out;
    var k := 0;
    while k < |row|
      invariant 0 <= k <= |row|
      invariant r == out + RowBytes(row[..k])
    {
      r := r + EncodeU32(row[k].id);
      RowBytesStep(row, k);
      k := k + 1;
    }
    assert row[..k] == row;
  }

  // ---------------------------------------------------------------------------
  // Header parsing (`Grid::read`)

  /** What `read` makes of a buffer: slicing `buf[0..4]` fails on fewer than four
      bytes, a wrong magic is refused, slicing `buf[4..16]` fails on fewer than
      sixteen bytes, and otherwise the three dimensions are decoded. Bytes after
      the sixteenth are never looked at. */
  function ParseHeader(buf: seq<byte>): (r: Result<Dims, ReadError>)
    ensures r.Ok? <==> |buf| >= 16 && buf[..4] == MAGIC
    ensures r == Err(BadMagic) <==> |buf| >= 4 && buf[..4] != MAGIC
    ensures r == Err(Truncated) <==> |buf| < 4 || (buf[..4] == MAGIC && |buf| < 16)
  {
    if |buf| < 4 then Err(Truncated)
    else if buf[..4] != MAGIC then Err(BadMagic)
    else if |buf| < 16 then Err(Truncated)
    else Ok(Dims(DecodeU32(buf[4..8]), DecodeU32(buf[8..12]), DecodeU32(buf[12..16])))
  }

  /** Parsing the header of any grid's serialisation gives back its dimension
      fields, whatever its cells hold. */
  lemma HeaderRoundTrip(d: Dims, cells: Cells)
    ensures ParseHeader(Encode(d, cells)) == Ok(d)
  {
    var e := Encode(d, cells);
    assert e[..4] == e[..16][..4];
    assert e[4..8] == e[..16][4..8];
    assert e[8..12] == e[..16][8..12];
    assert e[12..16] == e[..16][12..16];
    DecodeEncode(d.x);
    DecodeEncode(d.y);
    DecodeEncode(d.z);
  }

  /** Conversely, a header that parses is exactly the header of the dimensions it
      parses to, so parsing loses nothing. */
  lemma ParsedHeaderIsHeader(buf: seq<byte>)
    requires ParseHeader(buf).Ok?
    ensures Header(ParseHeader(buf).value) == buf[..16]
  {
    var d := ParseHeader(buf).value;
    EncodeDecode(buf[4..8]);
    EncodeDecode(buf[8..12]);
    EncodeDecode(buf[12..16]);
    var h := Header(d);
    assert h == h[..4] + h[4..8] + h[8..12] + h[12..16];
    assert buf[..16] == buf[..4] + buf[4..8] + buf[8..12] + buf[12..16];
  }

  /** `read` changes the dimension fields but keeps the old cells, so after
      reading a different grid's file the cells no longer match the dimensions,
      and writing again emits a header that disagrees with its body. Here: a
      `1 × 2 × 3` grid reads the file of a `2 × 2 × 2` grid. */
  lemma ReadKeepsStaleCells()
    ensures var stale := NewCells(Dims(1, 2, 3));
            var file := Encode(Dims(2, 2, 2), NewCells(Dims(2, 2, 2)));
            && ParseHeader(file) == Ok(Dims(2, 2, 2))
            && Shaped(stale, Dims(1, 2, 3))
            && !Shaped(stale, Dims(2, 2, 2))
            && |Encode(Dims(2, 2, 2), stale)| == 16 + 4 * 6
  {
    var stale := NewCells(Dims(1, 2, 3));
    HeaderRoundTrip(Dims(2, 2, 2), NewCells(Dims(2, 2, 2)));
    EncodeLength(Dims(1, 2, 3), stale);
  }

  // ---------------------------------------------------------------------------
  // The container

  /** `Grid`: nested cell vectors and three dimension fields. Nothing ties the
      fields to the vectors: `new` makes them agree, `read` may break that. */
  class Grid {
    var cells: Cells
    var xLen: u32
    var yLen: u32
    var zLen: u32

    function Dimensions(): (d: Dims)
      reads this
    {
      Dims(xLen, yLen, zLen)
    }

    /** `Grid::new`: an `x × y × z` grid of id-0 blocks. */
    constructor (x: u32, y: u32, z: u32)
      ensures Dimensions() == Dims(x, y, z)
      ensures cells == NewCells(Dims(x, y, z))
      ensures Shaped(cells, Dimensions())
    {
      cells := NewCells(Dims(x, y, z));
      xLen, yLen, zLen := x, y, z;
    }

    /** `Grid::get`: the block at `[x][y][z]`; indexing outside the cell vectors
        panics, so the coordinates must lie inside them. */
    method Get(x: nat, y: nat, z: nat) returns (b: Block)
      requires InBounds(cells, x, y, z)
      ensures b == cells[x][y][z]
    {
      b := cells[x][y][z];
    }

    /** `Grid::get_mut` followed by an assignment through the returned reference:
        `update` computes the new block from the current one. Only that cell
        changes; the dimension fields do not. */
    method GetMut(x: nat, y: nat, z: nat, update: Block -> Block)
      requires InBounds(cells, x, y, z)
      modifies this`cells
      ensures cells == UpdateCell(old(cells), x, y, z, update(old(cells)[x][y][z]))
      ensures Dimensions() == old(Dimensions())
      ensures Shaped(old(cells), Dimensions()) ==> Shaped(cells, Dimensions())
    {
      var b := update(cells[x][y][z]);
      cells := UpdateCell(cells, x, y, z, b);
      if Shaped(old(cells), Dimensions()) {
        SameShapeShaped(cells, old(cells), Dimensions());
      }
    }

    /** `Grid::write`, with the file replaced by the returned bytes: the magic,
        the dimension fields, then every block id, walking the cell vectors with
        x outermost and z innermost. */
    method Write() returns (out: seq<byte>)
      ensures out == Encode(Dimensions(), cells)
    {
      out := MAGIC;
      out := out + EncodeU32(xLen);
      out := out + EncodeU32(yLen);
      out := out + EncodeU32(zLen);
      ghost var header := out;
      assert header == Header(Dimensions());
      var grid := cells;
      var i := 0;
      while i < |grid|
        invariant 0 <= i <= |grid|
        invariant out == header + CellBytes(grid[..i])
      {
        out := WritePlane(out, grid[i]);
        CellBytesStep(grid, i);
        i := i + 1;
      }
      assert grid[..i] == grid;
    }

    /** `Grid::read`, with the file replaced by its bytes: on success only the
        three dimension fields change, to the decoded values; the cells are
        never touched. On failure nothing changes. */
    method Read(buf: seq<byte>) returns (r: Result<(), ReadError>)
      modifies this`xLen, this`yLen, this`zLen
      ensures ParseHeader(buf).Ok? ==> r == Ok(()) && Dimensions() == ParseHeader(buf).value
      ensures ParseHeader(buf).Err? ==> r == Err(ParseHeader(buf).error) && Dimensions() == old(Dimensions())
    {
      if |buf| < 4 {
        return Err(Truncated);
      }
      if buf[..4] != MAGIC {
        return Err(BadMagic);
      }
      if |buf| < 16 {
        return Err(Truncated);
      }
      var x := DecodeU32(buf[4..8]);
      var y := DecodeU32(buf[8..12]);
      var z := DecodeU32(buf[12..16]);
      xLen := x;
      yLen := y;
      zLen := z;
      r := Ok(());
    }
  }

  /** The driver's scenario: a new `1 × 2 × 3` grid is written and read back; the
      read succeeds and the dimension fields are again 1, 2 and 3. */
  method WriteThenRead() returns (r: Result<(), ReadError>, x: u32, y: u32, z: u32)
    ensures r == Ok(())
    ensures x == 1 && y == 2 && z == 3
  {
    var g := new Grid(1, 2, 3);
    var bytes := g.Write();
    HeaderRoundTrip(g.Dimensions(), g.cells);
    r := g.Read(bytes);
    x, y, z := g.xLen, g.yLen, g.zLen;
  }

  /** `read` on a live grid keeps its cells: a new `1 × 2 × 3` grid reads the file
      of a `2 × 2 × 2` grid. The read succeeds and the fields become 2, 2, 2, the
      cells are still the `1 × 2 × 3` box, so they no longer match the fields, and
      the next write emits a header for eight blocks followed by six. */
  method ReadOtherGrid() returns (g: Grid, r: Result<(), ReadError>, out: seq<byte>)
    ensures r == Ok(())
    ensures g.Dimensions() == Dims(2, 2, 2) && g.cells == NewCells(Dims(1, 2, 3))
    ensures !Shaped(g.cells, g.Dimensions())
    ensures |out| == 16 + 4 * 6 && out[..16] == Header(Dims(2, 2, 2))
  {
    g := new Grid(1, 2, 3);
    var other := new Grid(2, 2, 2);
    var file := other.Write();
    HeaderRoundTrip(other.Dimensions(), other.cells);
    r := g.Read(file);
    assert g.Dimensions() == Dims(2, 2, 2);
    assert g.cells == NewCells(Dims(1, 2, 3));
    EncodeLength(Dims(1, 2, 3), g.cells);
    out := g.Write();
  }
}
