/// The block store of `GameWorld`: block records with their face-exposure
/// bits, the linear indexing of the grid, and the operations that edit it.
/// The OpenGL side of the class (vertex buffers, drawing) is not modelled.
module World {
  import opened CircularQueue

  // The six face flags of a block's surface mesh.
  const SurfaceMeshTop: int := 1
  const SurfaceMeshBack: int := 2
  const SurfaceMeshLeft: int := 4
  const SurfaceMeshRight: int := 8
  const SurfaceMeshFront: int := 16
  const SurfaceMeshBottom: int := 32

  datatype Face = Top | Back | Left | Right | Front | Bottom

  /// A positive number whose binary form has exactly one bit set.
  predicate IsSingleBit(n: int) {
    0 < n < 256 && (n as bv8) & ((n - 1) as bv8) == 0
  }

  /// Bitwise or of two small non-negative masks.
  function Or(a: int, b: int): (r: int)
    requires 0 <= a < 256 && 0 <= b < 256
    ensures 0 <= r < 256
  {
    ((a as bv8) | (b as bv8)) as int
  }

  function FaceBit(f: Face): (bit: int)
    ensures IsSingleBit(bit) && bit <= SurfaceMeshBottom
  {
    match f
    case Top => SurfaceMeshTop
    case Back => SurfaceMeshBack
    case Left => SurfaceMeshLeft
    case Right => SurfaceMeshRight
    case Front => SurfaceMeshFront
    case Bottom => SurfaceMeshBottom
  }

  /// Whether the face's bit is set in `mask`. Floor division by a power of
  /// two followed by `% 2` reads one bit of the two's-complement form, so
  /// this agrees with C++'s `mask & bit` for every `int`.
  predicate HasFace(mask: int, f: Face) {
    (mask / FaceBit(f)) % 2 == 1
  }

  /// The six flags are distinct single bits that do not overlap.
  lemma FaceBitsDisjoint(f: Face, g: Face)
    ensures f != g ==> (FaceBit(f) as bv8) & (FaceBit(g) as bv8) == 0
    ensures FaceBit(f) == FaceBit(g) <==> f == g
  {
  }

  /// The mask `_block_t(type)` stores: the or of all six flags.
  function AllFaces(): (mask: int)
    ensures mask == 63
    ensures forall f: Face :: HasFace(mask, f)
  {
    Or(Or(Or(SurfaceMeshTop, SurfaceMeshBack), Or(SurfaceMeshLeft, SurfaceMeshRight)),
       Or(SurfaceMeshFront, SurfaceMeshBottom))
  }

  /// `_block_type_t`; `None` is a cell without a block.
  datatype BlockType = Earth | Grass | Stone | None

  /// `_block_t`: a block's type and its surface-mesh mask.
  datatype Block = Block(blockType: BlockType, surfaceMesh: int)

  /// `_block_t()`: no block, no face exposed.
  function EmptyBlock(): (b: Block)
    ensures b.blockType == None
    ensures forall f: Face :: !HasFace(b.surfaceMesh, f)
  {
    Block(None, 0)
  }

  /// `_block_t(type)`: a block of the given type with every face exposed.
  function ExposedBlock(t: BlockType): (b: Block)
    ensures b.blockType == t
    ensures forall f: Face :: HasFace(b.surfaceMesh, f)
  {
    Block(t, AllFaces())
  }

  // `_block_t(type, surface_mesh)` is the datatype constructor `Block` itself:
  // it stores both arguments verbatim.

  /// `get_array_position`, exactly as written: the y coordinate is scaled by
  /// the height, where row-major order would scale it by the width, so the
  /// two differ by `y * (height - width)`.
  function ArrayPosition(width: int, height: int, x: int, y: int, z: int): (r: int)
    ensures r == RowMajor(width, height, x, y, z) + y * (height - width)
  {
    z * height * width + y * height + x
  }

  /// The row-major index the rest of the program expects: x fastest, then y,
  /// then z.
  function RowMajor(width: int, height: int, x: int, y: int, z: int): int {
    z * height * width + y * width + x
  }

  predicate InGrid(width: int, height: int, depth: int, x: int, y: int, z: int) {
    0 <= x < width && 0 <= y < height && 0 <= z < depth
  }

  lemma MulMono(a: int, b: int, c: int)
    requires a <= b && 0 <= c
    ensures a * c <= b * c
  {
  }

  /// The quirky index agrees with row-major indexing on every in-grid
  /// coordinate exactly when the grid is as high as it is wide, or one
  /// block high (then y is always 0).
  lemma ArrayPositionIsRowMajor(width: int, height: int, depth: int)
    requires 1 <= width && 1 <= height && 1 <= depth
    ensures (forall x, y, z :: InGrid(width, height, depth, x, y, z) ==>
               ArrayPosition(width, height, x, y, z) == RowMajor(width, height, x, y, z))
            <==> (height == width || height == 1)
  {
    if height == width || height == 1 {
      forall x, y, z | InGrid(width, height, depth, x, y, z)
        ensures ArrayPosition(width, height, x, y, z) == RowMajor(width, height, x, y, z)
      {
        if height == 1 {
          assert y == 0;
        }
      }
    } else {
      assert InGrid(width, height, depth, 0, 1, 0);
      assert ArrayPosition(width, height, 0, 1, 0) == height;
      assert RowMajor(width, height, 0, 1, 0) == width;
    }
  }

  /// Within one layer, the offset `y * height + x` of an in-grid coordinate
  /// stays below the layer size when the grid is no higher than wide or one
  /// block high.
  lemma RowOffsetBounded(width: int, height: int, x: int, y: int)
    requires 0 <= x < width && 0 <= y < height
    requires height <= width || height == 1
    ensures 0 <= y * height + x < height * width
  {
    if height == 1 {
      assert y == 0;
    } else {
      MulMono(y, height - 1, height);
      MulMono(height, width, height - 1);
      assert (height - 1) * width == height * width - width;
    }
  }

  /// A layer index below `depth` plus an offset below the layer size stays
  /// below `depth` layers.
  lemma LayerBounded(z: int, depth: int, layer: int, offset: int)
    requires 0 <= z < depth && 0 <= offset < layer
    ensures 0 <= z * layer + offset < depth * layer
  {
    MulMono(z, depth - 1, layer);
    MulMono(0, z, layer);
    assert (depth - 1) * layer == depth * layer - layer;
  }

  lemma Reassociate(z: int, height: int, width: int, depth: int)
    ensures z * height * width == z * (height * width)
    ensures width * height * depth == depth * (height * width)
  {
  }

  /// Bounds of the quirky index on one in-grid coordinate, when the grid is
  /// no higher than wide or one block high.
  lemma ArrayPositionBounded(width: int, height: int, depth: int, x: int, y: int, z: int)
    requires InGrid(width, height, depth, x, y, z)
    requires height <= width || height == 1
    ensures 0 <= ArrayPosition(width, height, x, y, z) < width * height * depth
  {
    RowOffsetBounded(width, height, x, y);
    LayerBounded(z, depth, height * width, y * height + x);
    Reassociate(z, height, width, depth);
  }

  /// Every in-grid coordinate yields an index inside the block array exactly
  /// when the grid is no higher than wide, or one block high. Otherwise the
  /// far corner already lands outside it.
  lemma ArrayPositionInBounds(width: int, height: int, depth: int)
    requires 1 <= width && 1 <= height && 1 <= depth
    ensures (forall x, y, z :: InGrid(width, height, depth, x, y, z) ==>
               0 <= ArrayPosition(width, height, x, y, z) < width * height * depth)
            <==> (height <= width || height == 1)
  {
    if height <= width || height == 1 {
      forall x, y, z | InGrid(width, height, depth, x, y, z)
        ensures 0 <= ArrayPosition(width, height, x, y, z) < width * height * depth
      {
        ArrayPositionBounded(width, height, depth, x, y, z);
      }
    } else {
      var x, y, z := width - 1, height - 1, depth - 1;
      assert InGrid(width, height, depth, x, y, z);
      var hw := height * width;
      assert z * height * width == z * hw;
      assert z * hw == width * height * depth - hw;
      MulMono(width + 1, height, height - 1);
      assert y * height >= (width + 1) * (height - 1);
      assert (width + 1) * (height - 1) == hw - width + height - 1;
      assert ArrayPosition(width, height, x, y, z) >= width * height * depth;
    }
  }

  /// The scenario of the disabled test assertion: in a grid one block wide
  /// and two high, the coordinate (0, 1, 0) has row-major index 1, but the
  /// quirky index is 2, one past the last of the two cells.
  lemma ArrayPositionOneByTwo()
    ensures RowMajor(1, 2, 0, 1, 0) == 1
    ensures ArrayPosition(1, 2, 0, 1, 0) == 2 == 1 * 2 * 1
  {
    assert ArrayPosition(1, 2, 0, 1, 0) == 2;
  }

  lemma ProductPositive(a: int, b: int, c: int)
    requires 1 <= a && 1 <= b && 1 <= c
    ensures a * b * c >= 1
  {
    MulMono(1, a, b);
    MulMono(1, a * b, c);
  }

  class GameWorld {
    const width: int
    const height: int
    const depth: int
    const blocks: array<Block>

    /// The dimensions are positive, the array holds one record per cell, and
    /// an empty cell never carries face bits.
    ghost predicate Valid()
      reads this, blocks
    {
      && 1 <= width && 1 <= height && 1 <= depth
      && blocks.Length == height * width * depth
      && forall i :: 0 <= i < blocks.Length && blocks[i].blockType == None ==> blocks[i].surfaceMesh == 0
    }

    /// Whether the coordinate's (quirky) index addresses the block array; the
    /// source reads and writes `_blocks` there without a check.
    ghost predicate Addressable(x: int, y: int, z: int)
      reads this
    {
      0 <= ArrayPosition(width, height, x, y, z) < blocks.Length
    }

    /// A new world of the given size with every cell empty. The source then
    /// runs `GenerateSurfaceMesh()` from the origin.
    constructor (width: int, height: int, depth: int)
      requires 1 <= width && 1 <= height && 1 <= depth
      ensures Valid() && fresh(blocks)
      ensures this.width == width && this.height == height && this.depth == depth
      ensures blocks.Length == width * height * depth
      ensures forall i :: 0 <= i < blocks.Length ==> blocks[i] == EmptyBlock()
    {
      this.width := width;
      this.height := height;
      this.depth := depth;
      ProductPositive(height, width, depth);
      blocks := new Block[height * width * depth](_ => EmptyBlock());
      new;
      ghost var rounds := GenerateSurfaceMesh();
    }

    /// Places a block of type `t` with mask 0 in an empty cell; refuses,
    /// changing nothing, when the cell already holds a block.
    method InsertBlock(x: int, y: int, z: int, t: BlockType) returns (inserted: bool)
      requires Valid() && Addressable(x, y, z)
      modifies blocks
      ensures Valid()
      ensures var i := ArrayPosition(width, height, x, y, z);
              && (inserted <==> old(blocks[i]).blockType == None)
              && blocks[..] == if inserted then old(blocks[..])[i := Block(t, 0)] else old(blocks[..])
    {
      var index := ArrayPosition(width, height, x, y, z);
      if blocks[index].blockType != None {
        return false;
      }
      blocks[index] := Block(t, 0);
      return true;
    }

    /// Succeeds only on a cell that is already empty and clears it; as an
    /// empty cell already has mask 0, the array never changes.
    method DeleteBlock(x: int, y: int, z: int) returns (deleted: bool)
      requires Valid() && Addressable(x, y, z)
      modifies blocks
      ensures Valid()
      ensures var i := ArrayPosition(width, height, x, y, z);
              && (deleted <==> old(blocks[i]).blockType == None)
              && blocks[..] == if deleted then old(blocks[..])[i := EmptyBlock()] else old(blocks[..])
      ensures blocks[..] == old(blocks[..])
    {
      var index := ArrayPosition(width, height, x, y, z);
      if blocks[index].blockType != None {
        return false;
      }
      blocks[index] := blocks[index].(blockType := None);
      blocks[index] := blocks[index].(surfaceMesh := 0);
      return true;
    }

    /// Queues the start cell in a queue as large as the grid and drains it.
    /// The neighbour checks are placeholders in the source, so the loop runs
    /// once and no block changes.
    method GenerateSurfaceMesh(x: int := 0, y: int := 0, z: int := 0) returns (ghost rounds: nat)
      requires Valid() && Addressable(x, y, z)
      ensures rounds == 1
    {
      var queue := new CircularQueueStruct<(Block, int)>(width * height * depth);
      var position := ArrayPosition(width, height, x, y, z);
      var queued := queue.Enqueue((blocks[position], position));
      rounds := 0;
      while true
        invariant queue.Valid() && fresh(queue) && fresh(queue.queue)
        invariant rounds <= 1
        invariant queue.Contents == if rounds == 0 then [(blocks[position], position)] else []
        decreases |queue.Contents|
      {
        var empty := queue.IsEmpty();
        if empty {
          break;
        }
        var block := queue.Dequeue();
        // check all 6 neighbour blocks: only the first test is written, and
        // its branch is empty
        if blocks[block.1].blockType == None {
        }
        rounds := rounds + 1;
      }
    }
  }
}
