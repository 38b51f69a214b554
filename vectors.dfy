/**
  The double-precision vector of DrLight/Vector3d.cs, read over exact reals.

  `Vec` is a value type: its datatype equality is the exact, componentwise
  `Equals` that .NET dictionaries use for keys. The `==` and `!=` operators of
  the source are the tolerance tests `TolEq` and `TolNe` below.
*/
module Vectors {
  import opened Wrappers

  datatype Vec = Vec(x: real, y: real, z: real)

  const Zero: Vec := Vec(0.0, 0.0, 0.0)

  /** Threshold of the tolerance operators, on the squared distance (1e-9). */
  const Epsilon: real := 0.000000001

  /** The indexer getter: 0, 1, 2 select x, y, z; any other index throws. */
  function Component(v: Vec, index: int): (r: Option<real>)
    ensures r.Some? <==> 0 <= index < 3
    ensures index == 0 ==> r == Some(v.x)
    ensures index == 1 ==> r == Some(v.y)
    ensures index == 2 ==> r == Some(v.z)
  {
    if index == 0 then Some(v.x)
    else if index == 1 then Some(v.y)
    else if index == 2 then Some(v.z)
    else None
  }

  /**
    The indexer setter. Vector3d is a struct, so `v[index] = value` replaces
    the value held by `v`; the result is that new value, or None where the
    source throws IndexOutOfRangeException.
  */
  function WithComponent(v: Vec, index: int, value: real): (r: Option<Vec>)
    ensures r.Some? <==> 0 <= index < 3
    ensures r.Some? ==> Component(r.value, index) == Some(value)
    ensures r.Some? ==> forall j :: j != index ==> Component(r.value, j) == Component(v, j)
  {
    if index == 0 then Some(v.(x := value))
    else if index == 1 then Some(v.(y := value))
    else if index == 2 then Some(v.(z := value))
    else None
  }

  /** Writing back the component just read leaves the vector as it was. */
  lemma WithOwnComponent(v: Vec, index: int)
    requires 0 <= index < 3
    ensures WithComponent(v, index, Component(v, index).value) == Some(v)
  {
  }

  /** Binary `operator -`. */
  function Sub(a: Vec, b: Vec): (r: Vec)
    ensures r == Zero <==> a == b
  {
    Vec(a.x - b.x, a.y - b.y, a.z - b.z)
  }

  /** A square is never negative. */
  lemma SquareNonNegative(r: real)
    ensures r * r >= 0.0
  {
  }

  /** `SqrMagnitude`: the sum of the squares of the three components. */
  function SqrMagnitude(a: Vec): (r: real)
    ensures r >= 0.0
  {
    SquareNonNegative(a.x);
    SquareNonNegative(a.y);
    SquareNonNegative(a.z);
    a.x * a.x + a.y * a.y + a.z * a.z
  }

  /** The squared distance underneath `Distance(a, b)`, which is its square root. */
  function SqrDistance(a: Vec, b: Vec): real
  {
    SqrMagnitude(Sub(a, b))
  }

  /** `operator ==`: the squared distance is below 1e-9. */
  predicate TolEq(a: Vec, b: Vec)
  {
    SqrDistance(a, b) < Epsilon
  }

  /** `operator !=`: the squared distance is at least 1e-9. */
  predicate TolNe(a: Vec, b: Vec)
  {
    SqrDistance(a, b) >= Epsilon
  }

  /** The object argument of `Equals(object)`: a boxed Vector3d or anything else. */
  datatype Boxed = BoxedVec(v: Vec) | NotAVector

  /** `Equals`: exact equality of all three components; false for a non-vector. */
  predicate Equals(a: Vec, other: Boxed)
    ensures Equals(a, other) <==> other == BoxedVec(a)
  {
    other.BoxedVec? && a.x == other.v.x && a.y == other.v.y && a.z == other.v.z
  }

  /** Squaring a difference does not depend on the order of its operands. */
  lemma SquareOfDifference(u: real, v: real)
    ensures (u - v) * (u - v) == (v - u) * (v - u)
  {
    var d := u - v;
    assert v - u == -d;
    assert (-d) * (-d) == d * d;
  }

  /** The squared distance does not depend on the order of its arguments. */
  lemma SqrDistanceSymmetric(a: Vec, b: Vec)
    ensures SqrDistance(a, b) == SqrDistance(b, a)
  {
    SquareOfDifference(a.x, b.x);
    SquareOfDifference(a.y, b.y);
    SquareOfDifference(a.z, b.z);
  }

  /** A vector is at squared distance zero from itself. */
  lemma SqrDistanceToSelf(a: Vec)
    ensures SqrDistance(a, a) == 0.0
  {
    assert Sub(a, a) == Zero;
  }

  /** `!=` is exactly the negation of `==`. */
  lemma TolNeIsNotTolEq(a: Vec, b: Vec)
    ensures TolNe(a, b) <==> !TolEq(a, b)
  {
  }

  /** `==` is reflexive. */
  lemma TolEqReflexive(a: Vec)
    ensures TolEq(a, a)
  {
    SqrDistanceToSelf(a);
  }

  /** `==` is symmetric. */
  lemma TolEqSymmetric(a: Vec, b: Vec)
    ensures TolEq(a, b) <==> TolEq(b, a)
  {
    SqrDistanceSymmetric(a, b);
  }

  /** `==` is not transitive: two steps of 3e-5 are each within tolerance, their sum is not. */
  lemma TolEqNotTransitive()
    ensures TolEq(Zero, Vec(0.00003, 0.0, 0.0))
    ensures TolEq(Vec(0.00003, 0.0, 0.0), Vec(0.00006, 0.0, 0.0))
    ensures !TolEq(Zero, Vec(0.00006, 0.0, 0.0))
  {
  }

  /** Exact equality implies tolerance equality, but not the other way round. */
  lemma EqualsVersusTolEq(a: Vec, b: Vec)
    ensures Equals(a, BoxedVec(b)) ==> TolEq(a, b)
    ensures TolEq(Zero, Vec(0.00001, 0.0, 0.0)) && !Equals(Zero, BoxedVec(Vec(0.00001, 0.0, 0.0)))
  {
  }

  /** Squaring is strictly increasing on the non-negative reals. */
  lemma SquareStrictlyIncreasing(u: real, v: real)
    requires 0.0 <= u < v
    ensures u * u < v * v
  {
    var uu, uv, vv := u * u, u * v, v * v;
    assert uu <= uv;
    assert uv < vv;
  }

  /**
    `Distance` is the non-negative square root of `SqrDistance`: ordering
    candidates by any such roots is the same as ordering them by the squares.
  */
  lemma DistanceOrderIsSqrOrder(p: real, q: real, dp: real, dq: real)
    requires 0.0 <= dp && 0.0 <= dq
    requires dp * dp == p && dq * dq == q
    ensures dp < dq <==> p < q
    ensures dp == dq <==> p == q
  {
    if dp < dq {
      SquareStrictlyIncreasing(dp, dq);
    } else if dq < dp {
      SquareStrictlyIncreasing(dq, dp);
    }
  }
}
