# Voxel world demo: block store, ring-buffer queue and input state in Dafny

This project models the integer-only core of a small voxel "Minecraft" demo
written in C++: a 3D grid of blocks, each holding a block type and a
six-bit surface-mesh mask (one bit per face). It covers:

- `DataStructures::CircularQueueStruct<T>`, a fixed-capacity FIFO ring buffer
  that stores items by value (`queue.dfy`, module `CircularQueue`). It is a
  class over an `array<T>` with a ghost `Contents` sequence. Its invariant
  `Valid()` ties the front index, the back index and the count to that
  sequence.
- The block store of `GameWorld` (`game_world.dfy`, module `World`). It has
  the face flags, the block types, the `_block_t` constructors, the linear
  index `get_array_position`, the grid constructor, `InsertBlock`,
  `DeleteBlock` and `GenerateSurfaceMesh`. The blocks are a class field of
  type `array<Block>`, updated in place.
- The bounds-checked reference index `_GetArrayPos` used by the world tests,
  with its inverse and the values the tests assert (`test_game_world.dfy`,
  module `WorldTests`).
- `window::get_aspect_ratio_height` (`window.dfy`, module `Window`), with C++
  truncating division written out.
- From `main.cpp` (`main.dfy`, module `Game`): `create_world`, the world set-up
  in `main`, and the `keys[]` / `wireframe` state of `key_callback`.

The model follows the code as written, including its quirks:

- `get_array_position` scales `y` by the height, not the width. Lemmas show
  when that still matches row-major order and when it stays inside the
  array.
- `InsertBlock` stores mask 0, not the all-faces mask.
- `DeleteBlock` succeeds only on a cell that is already empty. Because every
  empty cell has mask 0 (an invariant of the world), it never changes the
  array.
- `GenerateSurfaceMesh` queues the start cell and drains the queue. Its six
  neighbour checks are only comments (one empty `if`), so the loop runs once
  and changes no block.

The code's own comments mark where it is unfinished, and the model keeps
those gaps:

- `InsertBlock` carries a TODO to work out the surface mesh from the
  neighbouring blocks (game_world.hpp:134). Until then it stores mask 0.
- The six neighbour checks of `GenerateSurfaceMesh` are comments under one
  empty `if` (game_world.hpp:165-179), so no face is culled.
- The world tests compute the row-major index `z*dy*dx + y*dx + x`
  (test_game_world.cpp:31). `WorldTests.GetArrayPosIsRowMajor` relates that
  index to the world's own `get_array_position`.

`Enqueue` refuses when `count >= size` and `IsEmpty` tests `count <= 0`.
Under the queue invariant these are the same as `count == size` and
`count == 0`.

Inputs and effects from outside are reduced to state. The window close
request (`glfwSetWindowShouldClose`) is the field `KeyState.closeRequested`.
The polygon mode (`glPolygonMode`) is the field `KeyState.polygonMode`. The
GLFW action and key codes are GLFW's own values: release 0, press 1,
Space 32, Escape 256.

## Model

| member | source | states |
|---|---|---|
| `CircularQueue.Wrap` | circular_queue_struct.hpp:56-57 | the wrap-around step of an index (reset to 0 on reaching `size`) is the index modulo `size` and stays in `[0, size)` |
| `CircularQueue.CircularQueueStruct.constructor` | circular_queue_struct.hpp:31-42 | a requested capacity below 1 becomes 1; the queue starts empty with front = back = count = 0 |
| `CircularQueue.CircularQueueStruct.Enqueue` | circular_queue_struct.hpp:48-61 | succeeds iff the queue holds fewer than `size` items; on success the item is appended at the tail, count rises by 1 and `back` advances by one modulo `size`; on failure contents, count, indices and the array are unchanged; the invariant is kept |
| `CircularQueue.CircularQueueStruct.IsEmpty` | circular_queue_struct.hpp:63-66 | true exactly when no item is queued |
| `CircularQueue.CircularQueueStruct.Dequeue` | circular_queue_struct.hpp:68-78 | on a non-empty queue returns the oldest item and leaves the rest in order (FIFO); count falls by 1, `front` advances modulo `size`, `back` is unchanged; the invariant is kept |
| `CircularQueue.CircularQueueStruct.GetSize` | circular_queue_struct.hpp:80-83 | returns the capacity, which is at least 1 |
| `CircularQueue.CircularQueueStruct.GetCount` | circular_queue_struct.hpp:84-87 | returns the number of queued items, between 0 and the capacity |
| `World.FaceBit` | game_world.hpp:24-29 | each face flag is a single bit, at most 32 |
| `World.FaceBitsDisjoint` | game_world.hpp:24-29 | the six flags are pairwise distinct and share no bit |
| `World.AllFaces` | game_world.hpp:49-52 | the or of the six flags is 63 and has every face bit set |
| `World.EmptyBlock` | game_world.hpp:46 | `_block_t()` is an empty cell with no face bit set |
| `World.ExposedBlock` | game_world.hpp:47-53 | `_block_t(type)` keeps the type and has all six face bits set |
| `World.ArrayPosition` | game_world.hpp:101-104 | `get_array_position` as written: the row-major index plus `y * (height - width)`, since y is scaled by the height |
| `World.ArrayPositionIsRowMajor` | game_world.hpp:101-104 | on a grid with positive dimensions, the index equals the row-major index `z*h*w + y*w + x` for every in-grid coordinate iff height == width or height == 1 |
| `World.ArrayPositionBounded` | game_world.hpp:101-104 | when height <= width or height == 1, an in-grid coordinate has an index in `[0, w*h*d)` |
| `World.ArrayPositionInBounds` | game_world.hpp:101-104 | every in-grid coordinate has an index inside the block array iff height <= width or height == 1 |
| `World.ArrayPositionOneByTwo` | game_world.hpp:103 | in a 1 x 2 x 1 grid, (0, 1, 0) has row-major index 1 but index 2, which is past the two cells |
| `World.GameWorld.constructor` | game_world.hpp:108-116 | a world of w x h x d cells, every cell `_block_t()`; the invariant holds (then the surface-mesh pass runs) |
| `World.GameWorld.InsertBlock` | game_world.hpp:125-137 | succeeds iff the addressed cell is empty; on success that cell alone becomes `{type, 0}`; on failure no cell changes; the invariant is kept |
| `World.GameWorld.DeleteBlock` | game_world.hpp:139-151 | succeeds iff the addressed cell is empty, writing `{NONE, 0}` there; since empty cells already have mask 0 the array never changes |
| `World.GameWorld.GenerateSurfaceMesh` | game_world.hpp:153-181 | with a queue as large as the grid, the start cell is queued once, the drain loop runs exactly one round and terminates, and (no `modifies`) no block changes |
| `WorldTests.GetArrayPos` | test_game_world.cpp:26-32 | returns -1 exactly when some coordinate is negative or not below its dimension |
| `WorldTests.GetArrayPosBounded` | test_game_world.cpp:31 | for in-range coordinates the index lies in `[0, dx*dy*dz)` |
| `WorldTests.FromArrayPos` | test_game_world.cpp:31 | every index in `[0, dx*dy*dz)` decodes to an in-range coordinate |
| `WorldTests.GetArrayPosOfFromArrayPos` | test_game_world.cpp:31 | encoding the decoded coordinate of an index gives the index back (the index is onto `[0, dx*dy*dz)`) |
| `WorldTests.FromArrayPosOfGetArrayPos` | test_game_world.cpp:31 | decoding the index of an in-range coordinate gives the coordinate back |
| `WorldTests.GetArrayPosInjective` | test_game_world.cpp:31 | two in-range coordinates have the same index iff they are equal |
| `WorldTests.GetArrayPosIsRowMajor` | test_game_world.cpp:31 | on in-range coordinates the tests' index is the row-major order `World.RowMajor`; when height == width or height == 1 it also equals the world's `get_array_position` (game_world.hpp:101-104) |
| `WorldTests.TestGetArrayPosition` | test_game_world.cpp:34-47 | the four asserted values hold, and so does the commented-out one: (0, 1, 0) in 1 x 2 x 1 gives 1 |
| `Window.Components` | engine/window.hpp:16-22 | each enum value names a ratio w:h with 1 <= h <= w |
| `Window.Quot` | engine/window.hpp:30 | C++ `/` on `int` truncates toward zero: the remainder `a - q*b` lies in `[0, b)` for a non-negative dividend and in `(-b, 0]` for a negative one |
| `Window.AspectRatioHeight` | engine/window.hpp:24-50 | an out-of-enum value gives 0; 1:1 gives the width unchanged; for width >= 0 the height is in `[0, width]`, and for width <= 0 in `[width, 0]` |
| `Window.AspectRatioHeightByComponents` | engine/window.hpp:28-43 | every listed ratio w:h computes `(width / w) * h`, dividing first |
| `Window.AspectRatioHeightWholeUnits` | engine/window.hpp:29-40 | for width >= 0 the height is a multiple of h, and its h-units need whole w-units that fit into the width with fewer than w left over (truncation) |
| `Window.AspectRatioHeightOdd` | engine/window.hpp:29-40 | negating the width negates the height (division truncates toward zero) |
| `Game.GrassIndexIsSlot` | main.cpp:44-48 | the cell `InsertBlock(x, 0, z, GRASS)` addresses is `z*50 + x`, a grass slot inside the 250-cell array, from which x and z can be read back |
| `Game.GrassSlotIsIndex` | main.cpp:44-48 | every grass slot is the cell of one loop pair (x, z) |
| `Game.GrassIndexInjective` | main.cpp:44-48 | distinct loop pairs (x, z) address distinct cells, so no insert hits an earlier one |
| `Game.CreateWorld` | main.cpp:41-51 | on the 10 x 5 x 5 world, exactly the 50 grass slots get `{GRASS, 0}` when they were empty; every other cell is unchanged; the world invariant is kept |
| `Game.BuildWorld` | main.cpp:64-67 | the world `main` builds is 10 x 5 x 5 and holds `{GRASS, 0}` in exactly the 50 grass slots and is empty elsewhere |
| `Game.KeyState.constructor` | main.cpp:54 | the 512 key flags start false, `wireframe` 0, polygons filled, no close request |
| `Game.KeyState.KeyCallback` | main.cpp:190-224 | pressing Escape requests close and leaves keys and wireframe alone; pressing another key sets its flag; releasing Space toggles `wireframe` between 0 and 1 and the polygon mode with it; releasing another key clears its flag; other actions change nothing; `wireframe` stays in {0, 1} |

## Left out

- OpenGL and GLFW resource code: `BufferVertexData`, `DrawBlocks`, `DrawSun`
  and the `GameWorld` destructor. These are foreign API calls. The destructors'
  `delete` of arrays allocated with `new[]` is not modelled either.
- Window creation and GLEW/GLFW initialisation in `engine/window.hpp`
  (`create_window`, `create_window_fullscreen`, resizing). This is library
  plumbing.
- The camera (`engine/camera.hpp`) and the timer (`engine/timer.hpp`). Both
  are floating-point code driven by GLFW time and input.
- `main`'s render loop, shader and texture loading, `do_movement`, and the
  mouse and scroll callbacks. These are GL calls and floating-point camera
  speeds.
- A six-neighbour face-occlusion search. The source has only comment
  placeholders, so modelling one would invent behaviour.
- CircularQueue.CircularQueueStruct.Dequeue: requires a non-empty queue, as
  its doc comment asks callers to ensure. On an empty queue the source moves
  `front`, keeps `count` at 0 and returns a stale slot, which breaks the
  front/back/count invariant when the capacity is at least 2. That path is
  not modelled.
- World.GameWorld.InsertBlock: requires the computed index to lie inside the
  block array, because the source reads and writes there unchecked.
  `World.ArrayPositionInBounds` says when in-grid coordinates guarantee this.
- World.GameWorld.DeleteBlock: the same index precondition as `InsertBlock`.
- World.GameWorld.constructor: requires positive dimensions, so zero and
  negative dimensions are not modelled. With a zero dimension, the source's
  surface-mesh pass reads `_blocks[0]` from an empty array. Negative
  dimensions whose product is positive, such as (-1, -1, 1), give the source
  a working world with that many cells. A negative product makes `new[]`
  throw.
- Game.KeyState.KeyCallback: requires the key to be in `[0, 512)` whenever
  the source indexes `keys[]` with it. `GLFW_KEY_UNKNOWN` (-1) or a key
  code of 512 or more would write outside the array.
- 32-bit `int` overflow is not modelled. Indices, widths and counts are
  unbounded integers. The model's preconditions keep indices inside arrays.
  `get_aspect_ratio_height` cannot overflow, because it divides before it
  multiplies and `Window.AspectRatioHeight` bounds the height by the width.
  The products in `get_array_position` and the grid size could overflow in
  C++ for very large worlds.
- The error message `get_aspect_ratio_height` prints to `std::cout` for an
  undefined ratio (engine/window.hpp:45). Output is not modelled; the model
  keeps only the result 0.
- The contents of the pairs `GenerateSurfaceMesh` queues are copies of blocks.
  The model keeps them but no property depends on them.
