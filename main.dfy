/// The integer logic of the demo's entry point: seeding the world with a
/// field of grass, and the key-state bookkeeping of the keyboard callback.
/// GLFW's effects are reduced to the state they set: a close request on the
/// window and the polygon mode.
module Game {
  import opened World

  // The size of the demo world.
  const Width: int := 10
  const Height: int := 5
  const Depth: int := 5

  /// The cell `create_world` plants grass in at layer `z`, column `x`.
  function GrassIndex(x: int, z: int): int {
    ArrayPosition(Width, Height, x, 0, z)
  }

  /// The cells of the bottom layer, `z * 50 + x` for `x < 10`, `z < 5`.
  predicate IsGrassSlot(i: int) {
    0 <= i && i % (Height * Width) < Width && i / (Height * Width) < Depth
  }

  /// What `InsertBlock(…, GRASS)` makes of a cell.
  function Planted(b: Block): Block {
    if b.blockType == None then Block(Grass, 0) else b
  }

  lemma DivModFifty(i: int, x: int, z: int)
    requires 0 <= x < Height * Width && i == z * (Height * Width) + x
    ensures i / (Height * Width) == z && i % (Height * Width) == x
  {
  }

  /// The insert positions of `create_world` are exactly the grass slots, and
  /// each slot is reached from one (x, z) only, so no insert hits a cell an
  /// earlier one filled.
  lemma GrassIndexIsSlot(x: int, z: int)
    requires 0 <= x < Width && 0 <= z < Depth
    ensures IsGrassSlot(GrassIndex(x, z))
    ensures GrassIndex(x, z) % (Height * Width) == x && GrassIndex(x, z) / (Height * Width) == z
    ensures 0 <= GrassIndex(x, z) < Width * Height * Depth
  {
    DivModFifty(GrassIndex(x, z), x, z);
  }

  lemma GrassSlotIsIndex(i: int)
    requires IsGrassSlot(i)
    ensures 0 <= i % (Height * Width) < Width && 0 <= i / (Height * Width) < Depth
    ensures i == GrassIndex(i % (Height * Width), i / (Height * Width))
  {
  }

  lemma GrassIndexInjective(x: int, z: int, x': int, z': int)
    requires 0 <= x < Width && 0 <= z < Depth && 0 <= x' < Width && 0 <= z' < Depth
    ensures GrassIndex(x, z) == GrassIndex(x', z') <==> x == x' && z == z'
  {
    GrassIndexIsSlot(x, z);
    GrassIndexIsSlot(x', z');
  }

  /// Whether the nested loops have reached cell `i` when they are at column
  /// `x`, layer `z`.
  predicate PlantedBefore(i: int, x: int, z: int) {
    IsGrassSlot(i)
    && (i % (Height * Width) < x || (i % (Height * Width) == x && i / (Height * Width) < z))
  }

  /// Plants grass in every cell `(x, 0, z)` with `x < 10`, `z < 5`; a cell
  /// that already holds a block keeps it. On the fresh world `main` builds,
  /// every insert succeeds.
  method CreateWorld(world: GameWorld)
    requires world.Valid()
    requires world.width == Width && world.height == Height && world.depth == Depth
    modifies world.blocks
    ensures world.Valid()
    ensures forall i :: 0 <= i < world.blocks.Length ==>
              world.blocks[i] == if IsGrassSlot(i) then Planted(old(world.blocks[i])) else old(world.blocks[i])
  {
    for x := 0 to Width
      invariant world.Valid()
      invariant forall i :: 0 <= i < world.blocks.Length ==>
                  world.blocks[i] == if PlantedBefore(i, x, 0) then Planted(old(world.blocks[i])) else old(world.blocks[i])
    {
      for z := 0 to Depth
        invariant world.Valid()
        invariant forall i :: 0 <= i < world.blocks.Length ==>
                    world.blocks[i] == if PlantedBefore(i, x, z) then Planted(old(world.blocks[i])) else old(world.blocks[i])
      {
        GrassIndexIsSlot(x, z);
        ghost var index := GrassIndex(x, z);
        var inserted := world.InsertBlock(x, 0, z, Grass);
        forall i | 0 <= i < world.blocks.Length
          ensures world.blocks[i] == if PlantedBefore(i, x, z + 1) then Planted(old(world.blocks[i])) else old(world.blocks[i])
        {
          if i != index && IsGrassSlot(i) {
            GrassSlotIsIndex(i);
          }
        }
      }
    }
    forall i | 0 <= i < world.blocks.Length
      ensures world.blocks[i] == if IsGrassSlot(i) then Planted(old(world.blocks[i])) else old(world.blocks[i])
    {
      if IsGrassSlot(i) {
        GrassSlotIsIndex(i);
      }
    }
  }

  /// The world `main` builds: a fresh 10 x 5 x 5 world seeded by
  /// `create_world`. Every insert succeeds, so exactly the grass slots hold
  /// grass (with mask 0) and every other cell is empty.
  method BuildWorld() returns (world: GameWorld)
    ensures world.Valid() && fresh(world.blocks)
    ensures world.width == Width && world.height == Height && world.depth == Depth
    ensures world.blocks.Length == Width * Height * Depth
    ensures forall i :: 0 <= i < world.blocks.Length ==>
              world.blocks[i] == if IsGrassSlot(i) then Block(Grass, 0) else EmptyBlock()
  {
    world := new GameWorld(Width, Height, Depth);
    CreateWorld(world);
  }

  // GLFW's values for the key actions and the keys the callback tests.
  const GlfwRelease: int := 0
  const GlfwPress: int := 1
  const GlfwKeySpace: int := 32
  const GlfwKeyEscape: int := 256

  const KeyCount: int := 512

  datatype PolygonMode = Fill | Line

  /// The state `key_callback` updates: the global `keys` array, its static
  /// `wireframe` flag, and the two effects it has on GLFW and OpenGL.
  class KeyState {
    const keys: array<bool>
    var wireframe: int
    var closeRequested: bool
    var polygonMode: PolygonMode

    /// `wireframe` is 0 or 1 and says which polygon mode was set last.
    ghost predicate Valid()
      reads this
    {
      && keys.Length == KeyCount
      && (wireframe == 0 || wireframe == 1)
      && polygonMode == if wireframe == 1 then Line else Fill
    }

    /// Program start: no key is down, and OpenGL fills polygons.
    constructor ()
      ensures Valid() && fresh(keys)
      ensures forall k :: 0 <= k < KeyCount ==> !keys[k]
      ensures wireframe == 0 && !closeRequested
    {
      keys := new bool[KeyCount](_ => false);
      wireframe := 0;
      closeRequested := false;
      polygonMode := Fill;
    }

    /// Pressing a key marks it down, except Escape, which asks the window
    /// to close. Releasing a key marks it up, except Space, which switches
    /// between wireframe and filled polygons. Other actions change nothing.
    method KeyCallback(key: int, action: int)
      requires Valid()
      requires action == GlfwPress && key != GlfwKeyEscape ==> 0 <= key < KeyCount
      requires action == GlfwRelease && key != GlfwKeySpace ==> 0 <= key < KeyCount
      modifies this, keys
      ensures Valid()
      ensures action == GlfwPress && key == GlfwKeyEscape ==>
                closeRequested && keys[..] == old(keys[..]) && wireframe == old(wireframe)
      ensures action == GlfwPress && key != GlfwKeyEscape ==>
                keys[..] == old(keys[..])[key := true] && wireframe == old(wireframe)
      ensures action == GlfwRelease && key == GlfwKeySpace ==>
                keys[..] == old(keys[..]) && wireframe == 1 - old(wireframe)
      ensures action == GlfwRelease && key != GlfwKeySpace ==>
                keys[..] == old(keys[..])[key := false] && wireframe == old(wireframe)
      ensures action != GlfwPress && action != GlfwRelease ==>
                keys[..] == old(keys[..]) && wireframe == old(wireframe)
      ensures !(action == GlfwPress && key == GlfwKeyEscape) ==> closeRequested == old(closeRequested)
    {
      if action == GlfwPress {
        if key == GlfwKeyEscape {
          closeRequested := true;
          return;
        } else {
          keys[key] := true;
        }
      }

      if action == GlfwRelease {
        if key == GlfwKeySpace {
          if wireframe == 0 {
            polygonMode := Line;
            wireframe := 1;
          } else {
            polygonMode := Fill;
            wireframe := 0;
          }
        } else {
          keys[key] := false;
        }
      }
    }
  }
}
