/** Two-dimensional vectors over the reals, standing in for System.Numerics.Vector2,
    and the optional value used for the world's bounds (C#'s Vector2?). */
module Vectors {

  datatype Vec2 = Vec2(x: real, y: real)

  datatype Option<T> = None | Some(value: T)

  const Zero: Vec2 := Vec2(0.0, 0.0)

  function Add(a: Vec2, b: Vec2): Vec2 {
    Vec2(a.x + b.x, a.y + b.y)
  }

  function Sub(a: Vec2, b: Vec2): Vec2 {
    Vec2(a.x - b.x, a.y - b.y)
  }

  /** Scalar times vector; C#'s `v * k` and `k * v` both become Scale(k, v). */
  function Scale(k: real, a: Vec2): Vec2 {
    Vec2(k * a.x, k * a.y)
  }

  function Dot(a: Vec2, b: Vec2): real {
    a.x * b.x + a.y * b.y
  }

  /** MathF.Abs */
  function Abs(r: real): real {
    if r < 0.0 then -r else r
  }

  /** MathF.Max */
  function Max(a: real, b: real): real {
    if a >= b then a else b
  }

  /** MathF.Min */
  function Min(a: real, b: real): real {
    if a <= b then a else b
  }

  /** A non-zero vector has a positive squared length. */
  lemma DotSelfPositive(v: Vec2)
    requires v != Zero
    ensures Dot(v, v) > 0.0
  {
    assert v.x != 0.0 || v.y != 0.0;
    // the solver does not always match the products in Dot's body with those in
    // SquaresPositive's postcondition, so the chain is spelled out
    calc {
      Dot(v, v);
    ==
      v.x * v.x + v.y * v.y;
    >  { SquaresPositive(v.x, v.y); }
      0.0;
    }
  }

  lemma SquaresPositive(x: real, y: real)
    requires x != 0.0 || y != 0.0
    ensures x * x + y * y > 0.0
  {
    if x < 0.0 {
      assert x * x == (-x) * (-x);
    }
    if y < 0.0 {
      assert y * y == (-y) * (-y);
    }
  }
}
