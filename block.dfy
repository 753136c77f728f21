/** One cell of the grid. A block's whole state is its numeric id; there is no
    other field, no tag and no payload. */
module Blocks {
  import opened LittleEndian

  /** A block, identified by a 32-bit id. */
  datatype Block = Block(id: u32)

  /** `Block::new`: accepts every `u32` and stores it as the id. */
  function New(id: u32): (b: Block)
    ensures b.id == id
    ensures forall c: Block :: c.id == id ==> c == b
  {
    Block(id)
  }

  /** `Clone::clone`: a block with the same id as `b`. Blocks are values here, so
      the original cannot be changed by cloning it. */
  function Clone(b: Block): (c: Block)
    ensures c.id == b.id
    ensures c == b
  {
    Block(b.id)
  }
}
