/**
  Points, affine world transforms and squared Euclidean distance over exact reals.

  The add-on compares `Vector.length` values, i.e. square roots of sums of
  squares.  This module works with the squared distance instead and proves
  that, for non-negative lengths, comparing squares orders them exactly as
  comparing the lengths does, so no square root is ever needed.
*/
module Geometry {

  /** A point or vector of three coordinates. */
  datatype Vec3 = Vec3(x: real, y: real, z: real)

  /**
    An object's `matrix_world`, restricted to its affine part: a 3x3 linear
    part given by its rows and a translation column.
  */
  datatype Affine = Affine(row0: Vec3, row1: Vec3, row2: Vec3, translation: Vec3)

  const Origin := Vec3(0.0, 0.0, 0.0)

  const Identity := Affine(Vec3(1.0, 0.0, 0.0), Vec3(0.0, 1.0, 0.0), Vec3(0.0, 0.0, 1.0), Origin)

  function Dot(a: Vec3, b: Vec3): real {
    a.x * b.x + a.y * b.y + a.z * b.z
  }

  function Sub(a: Vec3, b: Vec3): Vec3 {
    Vec3(a.x - b.x, a.y - b.y, a.z - b.z)
  }

  /** The linear part of `m` is the identity: `m` only moves points. */
  predicate IsTranslation(m: Affine) {
    m.row0 == Vec3(1.0, 0.0, 0.0) && m.row1 == Vec3(0.0, 1.0, 0.0) && m.row2 == Vec3(0.0, 0.0, 1.0)
  }

  /**
    `matrix_world @ p` for a point `p` (homogeneous coordinate 1): the
    armature's own origin lands on the matrix's translation, and a matrix
    that only translates moves every point by that translation.
  */
  function Apply(m: Affine, p: Vec3): (q: Vec3)
    ensures p == Origin ==> q == m.translation
    ensures IsTranslation(m) ==> q == Vec3(p.x + m.translation.x, p.y + m.translation.y, p.z + m.translation.z)
  {
    Vec3(Dot(m.row0, p) + m.translation.x,
         Dot(m.row1, p) + m.translation.y,
         Dot(m.row2, p) + m.translation.z)
  }

  /**
    Real multiplication behind a function symbol: the solver's arithmetic
    relates `r * r` terms unreliably, so squares are built from `Mul` and
    the facts about products are proved once, below.
  */
  function Mul(a: real, b: real): real {
    a * b
  }

  /** Sign rules for products. */
  lemma ProductSigns(c: real, d: real)
    ensures c >= 0.0 && d >= 0.0 ==> Mul(c, d) >= 0.0
    ensures c > 0.0 && d > 0.0 ==> Mul(c, d) > 0.0
    ensures Mul(-c, -d) == Mul(c, d)
  {
  }

  function Square(r: real): (s: real)
    ensures s >= 0.0
    ensures s == 0.0 <==> r == 0.0
  {
    ProductSigns(r, r);
    ProductSigns(-r, -r);
    Mul(r, r)
  }

  /** The square of `(a - b).length`. */
  function DistSq(a: Vec3, b: Vec3): (d: real)
    ensures d >= 0.0
    ensures d == 0.0 <==> a == b
  {
    var v := Sub(a, b);
    Square(v.x) + Square(v.y) + Square(v.z)
  }

  /** Python's built-in `max` on two numbers. */
  function Max(a: real, b: real): (m: real)
    ensures m >= a && m >= b
    ensures m == a || m == b
  {
    if a >= b then a else b
  }

  /** Squaring is strictly monotone on the non-negative reals, in both directions. */
  lemma SquareOrder(a: real, b: real)
    requires 0.0 <= a && 0.0 <= b
    ensures a < b <==> Square(a) < Square(b)
  {
  }

  /** The square of a maximum of two lengths is the maximum of their squares. */
  lemma SquareOfMax(a: real, b: real)
    requires 0.0 <= a && 0.0 <= b
    ensures Square(Max(a, b)) == Max(Square(a), Square(b))
  {
  }

  /**
    Comparing `max(l1, l2)` with `max(l3, l4)` for lengths gives the same answer
    as comparing the maxima of their squares.
  */
  lemma MaxOfLengthsOrder(l1: real, l2: real, l3: real, l4: real)
    requires 0.0 <= l1 && 0.0 <= l2 && 0.0 <= l3 && 0.0 <= l4
    ensures Max(l1, l2) < Max(l3, l4) <==> Max(Square(l1), Square(l2)) < Max(Square(l3), Square(l4))
  {
    SquareOfMax(l1, l2);
    SquareOfMax(l3, l4);
    SquareOrder(Max(l1, l2), Max(l3, l4));
  }
}
