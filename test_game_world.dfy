/// The bounds-checked reference index `_GetArrayPos` of the world tests and
/// the values the tests assert about it.
module WorldTests {
  import opened World

  datatype Vec3 = Vec3(x: int, y: int, z: int)

  predicate InRange(pos: Vec3, dim: Vec3) {
    && 0 <= pos.x < dim.x
    && 0 <= pos.y < dim.y
    && 0 <= pos.z < dim.z
  }

  function Volume(dim: Vec3): int {
    dim.x * dim.y * dim.z
  }

  /// Row-major index of `pos` in a grid of size `dim`, or -1 when a
  /// coordinate is negative or not below its dimension.
  function GetArrayPos(pos: Vec3, dim: Vec3): (r: int)
    ensures !InRange(pos, dim) <==> r == -1
  {
    if pos.x < 0 || pos.x >= dim.x then -1
    else if pos.y < 0 || pos.y >= dim.y then -1
    else if pos.z < 0 || pos.z >= dim.z then -1
    else
      pos.z * dim.y * dim.x + pos.y * dim.x + pos.x
  }

  /// Euclidean division is determined by quotient and remainder.
  lemma DivModUnique(a: int, b: int, q: int, r: int)
    requires 0 < b && 0 <= r < b && a == q * b + r
    ensures a / b == q && a % b == r
  {
    var q', r' := a / b, a % b;
    assert a == q' * b + r';
    assert (q - q') * b == r' - r;
    if q > q' {
      MulMono(1, q - q', b);
    } else if q < q' {
      MulMono(1, q' - q, b);
    }
  }

  /// The coordinate an in-range index stands for: the inverse of
  /// `GetArrayPos`.
  function FromArrayPos(i: int, dim: Vec3): (pos: Vec3)
    requires 1 <= dim.x && 1 <= dim.y && 0 <= i < Volume(dim)
    ensures InRange(pos, dim)
  {
    var layer := dim.x * dim.y;
    MulMono(1, dim.x, dim.y);
    assert Volume(dim) == layer * dim.z;
    var z := i / layer;
    var rest := i % layer;
    assert z < dim.z by {
      if z >= dim.z {
        MulMono(dim.z, z, layer);
      }
    }
    Vec3(rest % dim.x, rest / dim.x, z)
  }

  /// For in-range coordinates the index lies in `[0, dx * dy * dz)`.
  lemma GetArrayPosBounded(pos: Vec3, dim: Vec3)
    requires InRange(pos, dim)
    ensures 0 <= GetArrayPos(pos, dim) < Volume(dim)
  {
    var layer := dim.x * dim.y;
    MulMono(pos.y, dim.y - 1, dim.x);
    assert pos.y * dim.x + pos.x < layer;
    MulMono(pos.z, dim.z - 1, layer);
    assert pos.z * dim.y * dim.x == pos.z * layer;
    assert (dim.z - 1) * layer == Volume(dim) - layer;
  }

  /// Every index in `[0, dx * dy * dz)` comes from exactly the coordinate
  /// `FromArrayPos` gives.
  lemma GetArrayPosOfFromArrayPos(i: int, dim: Vec3)
    requires 1 <= dim.x && 1 <= dim.y && 0 <= i < Volume(dim)
    ensures GetArrayPos(FromArrayPos(i, dim), dim) == i
  {
    var layer := dim.x * dim.y;
    MulMono(1, dim.x, dim.y);
    var pos := FromArrayPos(i, dim);
    var rest := i % layer;
    assert pos == Vec3(rest % dim.x, rest / dim.x, i / layer);
    DivMod(i, layer);
    DivMod(rest, dim.x);
    ReorderLayer(pos.z, dim.x, dim.y);
  }

  lemma DivMod(a: int, b: int)
    requires 0 < b
    ensures a == (a / b) * b + a % b
  {
  }

  lemma ReorderLayer(z: int, dx: int, dy: int)
    ensures z * dy * dx == z * (dx * dy)
  {
  }

  /// Decoding the index of an in-range coordinate gives it back.
  lemma FromArrayPosOfGetArrayPos(pos: Vec3, dim: Vec3)
    requires InRange(pos, dim)
    ensures 0 <= GetArrayPos(pos, dim) < Volume(dim)
    ensures FromArrayPos(GetArrayPos(pos, dim), dim) == pos
  {
    GetArrayPosBounded(pos, dim);
    var i := GetArrayPos(pos, dim);
    var layer := dim.x * dim.y;
    var rest := pos.y * dim.x + pos.x;
    MulMono(pos.y, dim.y - 1, dim.x);
    assert rest < layer;
    ReorderLayer(pos.z, dim.x, dim.y);
    assert i == pos.z * layer + rest;
    DivModUnique(i, layer, pos.z, rest);
    DivModUnique(rest, dim.x, pos.y, pos.x);
    assert i / layer == pos.z && i % layer == rest;
    assert FromArrayPos(i, dim) == Vec3(rest % dim.x, rest / dim.x, pos.z);
  }

  /// `_GetArrayPos` is injective on in-range coordinates; with
  /// `GetArrayPosOfFromArrayPos` it is a bijection onto `[0, dx * dy * dz)`.
  lemma GetArrayPosInjective(p: Vec3, q: Vec3, dim: Vec3)
    requires InRange(p, dim) && InRange(q, dim)
    ensures GetArrayPos(p, dim) == GetArrayPos(q, dim) <==> p == q
  {
    if GetArrayPos(p, dim) == GetArrayPos(q, dim) {
      FromArrayPosOfGetArrayPos(p, dim);
      FromArrayPosOfGetArrayPos(q, dim);
    }
  }

  /// On in-range coordinates the tests' index is the world's row-major
  /// reference order, and it agrees with `get_array_position` exactly on
  /// the grids where that one is row-major.
  lemma GetArrayPosIsRowMajor(pos: Vec3, dim: Vec3)
    requires InRange(pos, dim)
    ensures GetArrayPos(pos, dim) == RowMajor(dim.x, dim.y, pos.x, pos.y, pos.z)
    ensures dim.y == dim.x || dim.y == 1 ==>
              GetArrayPos(pos, dim) == ArrayPosition(dim.x, dim.y, pos.x, pos.y, pos.z)
  {
    if dim.y == dim.x || dim.y == 1 {
      ArrayPositionIsRowMajor(dim.x, dim.y, dim.z);
      assert InGrid(dim.x, dim.y, dim.z, pos.x, pos.y, pos.z);
    }
  }

  /// The assertions of `test_get_array_position`, and the one it leaves
  /// commented out, which the formula also satisfies.
  lemma TestGetArrayPosition()
    ensures GetArrayPos(Vec3(0, 0, 0), Vec3(1, 1, 1)) == 0
    ensures GetArrayPos(Vec3(0, 0, 0), Vec3(2, 1, 1)) == 0
    ensures GetArrayPos(Vec3(1, 0, 0), Vec3(2, 1, 1)) == 1
    ensures GetArrayPos(Vec3(0, 0, 0), Vec3(1, 2, 1)) == 0
    ensures GetArrayPos(Vec3(0, 1, 0), Vec3(1, 2, 1)) == 1
  {
    assert GetArrayPos(Vec3(1, 0, 0), Vec3(2, 1, 1)) == 1;
    assert GetArrayPos(Vec3(0, 1, 0), Vec3(1, 2, 1)) == 1;
  }
}
