/** Three-component real vectors: vertex positions, face normals and face centres. */
module Vectors {

  datatype Vec = Vec(x: real, y: real, z: real)

  /** The start value `Vector((0, 0, 0))` of the neighbour-normal sum. */
  const Zero: Vec := Vec(0.0, 0.0, 0.0)

  function Add(a: Vec, b: Vec): Vec
  {
    Vec(a.x + b.x, a.y + b.y, a.z + b.z)
  }

  function Sub(a: Vec, b: Vec): Vec
  {
    Vec(a.x - b.x, a.y - b.y, a.z - b.z)
  }

  function Dot(a: Vec, b: Vec): real
  {
    a.x * b.x + a.y * b.y + a.z * b.z
  }

  /** `(a - b).length_squared`: the sort key of the nearest-normal selection. */
  function DistSq(a: Vec, b: Vec): real
  {
    Dot(Sub(a, b), Sub(a, b))
  }

  /** `sum(vs, Vector((0, 0, 0)))`, accumulated from left to right. */
  function Sum(vs: seq<Vec>): Vec
  {
    if vs == [] then Zero else Add(Sum(vs[..|vs| - 1]), vs[|vs| - 1])
  }
}
