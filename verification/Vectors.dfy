/** Four-lane vectors over the reals: what the lane macros and helpers of the intrinsics header do. */
module Vectors {

  datatype V4 = V4(x: real, y: real, z: real, w: real)

  function Lane(v: V4, i: nat): real
    requires i < 4
  {
    if i == 0 then v.x else if i == 1 then v.y else if i == 2 then v.z else v.w
  }

  function Swizzle(v: V4, x: nat, y: nat, z: nat, w: nat): V4
    requires x < 4 && y < 4 && z < 4 && w < 4
  {
    V4(Lane(v, x), Lane(v, y), Lane(v, z), Lane(v, w))
  }

  /** Two lanes of v0, then two of v1. */
  function Shuffle(v0: V4, v1: V4, i0: nat, j0: nat, i1: nat, j1: nat): V4
    requires i0 < 4 && j0 < 4 && i1 < 4 && j1 < 4
  {
    V4(Lane(v0, i0), Lane(v0, j0), Lane(v1, i1), Lane(v1, j1))
  }

  function AxBxAyBy(a: V4, b: V4): V4 {
    V4(a.x, b.x, a.y, b.y)
  }

  function AzBzAwBw(a: V4, b: V4): V4 {
    V4(a.z, b.z, a.w, b.w)
  }

  function AxyBxy(a: V4, b: V4): V4 {
    V4(a.x, a.y, b.x, b.y)
  }

  /** The high halves, b before a: the macro names its operands the other way round. */
  function AzwBzw(a: V4, b: V4): V4 {
    V4(b.z, b.w, a.z, a.w)
  }

  /** A product that proofs can keep folded up. */
  function Times(x: real, k: real): real {
    x * k
  }

  lemma PositiveProduct(a: real, b: real)
    requires a > 0.0 && b > 0.0
    ensures Times(a, b) > 0.0
  {
  }

  lemma ZeroTimes(a: real)
    ensures Times(0.0, a) == 0.0
  {
  }

  function Add(a: V4, b: V4): V4 {
    V4(a.x + b.x, a.y + b.y, a.z + b.z, a.w + b.w)
  }

  function Sub(a: V4, b: V4): V4 {
    V4(a.x - b.x, a.y - b.y, a.z - b.z, a.w - b.w)
  }

  function Mul(a: V4, b: V4): V4 {
    V4(a.x * b.x, a.y * b.y, a.z * b.z, a.w * b.w)
  }

  function Scale(a: V4, k: real): V4 {
    V4(a.x * k, a.y * k, a.z * k, a.w * k)
  }

  /** a * b + c */
  function Madd(a: V4, b: V4, c: V4): V4 {
    Add(Mul(a, b), c)
  }

  /** a * b - c */
  function Msub(a: V4, b: V4, c: V4): V4 {
    Sub(Mul(a, b), c)
  }

  /** c - a * b */
  function Nmadd(a: V4, b: V4, c: V4): V4 {
    Sub(c, Mul(a, b))
  }

  function Dot33(a: V4, b: V4): real {
    a.x * b.x + a.y * b.y + a.z * b.z
  }

  function Dot44(a: V4, b: V4): real {
    a.x * b.x + a.y * b.y + a.z * b.z + a.w * b.w
  }

  function SetW1(v: V4): V4 {
    V4(v.x, v.y, v.z, 1.0)
  }

  function Dot43(a: V4, b: V4): real {
    Dot44(a, SetW1(b))
  }

  function Abs(a: real): real {
    if a < 0.0 then -a else a
  }

  function AbsAll(v: V4): V4 {
    V4(Abs(v.x), Abs(v.y), Abs(v.z), Abs(v.w))
  }

  /** A lane mask, one flag a lane. */
  datatype Mask = Mask(x: bool, y: bool, z: bool, w: bool)

  function Greater(a: V4, b: V4): Mask {
    Mask(a.x > b.x, a.y > b.y, a.z > b.z, a.w > b.w)
  }

  const ZERO := V4(0.0, 0.0, 0.0, 0.0)

  /** b where the mask is set, a elsewhere. */
  function Select(a: V4, b: V4, mask: Mask): V4 {
    V4(if mask.x then b.x else a.x, if mask.y then b.y else a.y,
       if mask.z then b.z else a.z, if mask.w then b.w else a.w)
  }

  function Cross(x: V4, y: V4): V4 {
    var a := Swizzle(x, 1, 2, 0, 3);
    var b := Swizzle(y, 2, 0, 1, 3);
    var c := Swizzle(x, 2, 0, 1, 3);
    var d := Swizzle(y, 1, 2, 0, 3);
    Msub(a, b, Mul(c, d))
  }
}
