/**
 * The toroidal world: positions and displacements are reduced into the square
 * [-WorldSize, WorldSize] x [-WorldSize, WorldSize] by repeated shifts of
 * 2 * WorldSize (`Game::normalize` and `Game::delta_pos`).
 */
module Torus {
  import opened Vectors

  const WorldSize: real := 50.0
  const Period: real := 2.0 * WorldSize

  /** Both components lie in the closed world square. */
  predicate InWorld(v: Vec2) {
    -WorldSize <= v.x <= WorldSize && -WorldSize <= v.y <= WorldSize
  }

  /** The first kind of loop of `normalize`: subtract the period while above the world. */
  function WrapDown(c: real): (r: real)
    ensures r <= WorldSize
    ensures c > WorldSize ==> -WorldSize < r
    ensures c <= WorldSize ==> r == c
    decreases c.Floor
  {
    if c > WorldSize then WrapDown(c - Period) else c
  }

  /** The second kind of loop of `normalize`: add the period while below the world. */
  function WrapUp(c: real): (r: real)
    ensures -WorldSize <= r
    ensures c < -WorldSize ==> r < WorldSize
    ensures c >= -WorldSize ==> r == c
    decreases (-c).Floor
  {
    if c < -WorldSize then WrapUp(c + Period) else c
  }

  /** One coordinate of `normalize`: the downward loop runs before the upward one. */
  function Wrap(c: real): real {
    WrapUp(WrapDown(c))
  }

  /** The value `normalize` returns for `v`. */
  function Normalized(v: Vec2): (r: Vec2)
    ensures InWorld(r)
  {
    Vec2(Wrap(v.x), Wrap(v.y))
  }

  /** `Game::delta_pos`: the toroidal displacement from `a` to `b`. */
  function DeltaPos(a: Vec2, b: Vec2): (d: Vec2)
    ensures InWorld(d)
  {
    Normalized(b.Minus(a))
  }

  /** The toroidal distance between `a` and `b`. */
  function Distance(root: real -> real, a: Vec2, b: Vec2): real {
    Len(root, DeltaPos(a, b))
  }

  /** `Game::normalize`, with its four loops. */
  method Normalize(v0: Vec2) returns (v: Vec2)
    ensures v == Normalized(v0)
  {
    v := v0;
    while v.x > WorldSize
      invariant WrapDown(v.x) == WrapDown(v0.x) && v.y == v0.y
      decreases v.x.Floor
    {
      v := v.(x := v.x - Period);
    }
    while v.y > WorldSize
      invariant WrapDown(v.y) == WrapDown(v0.y) && v.x == WrapDown(v0.x)
      decreases v.y.Floor
    {
      v := v.(y := v.y - Period);
    }
    while v.x < -WorldSize
      invariant WrapUp(v.x) == Wrap(v0.x) && v.y == WrapDown(v0.y)
      decreases (-v.x).Floor
    {
      v := v.(x := v.x + Period);
    }
    while v.y < -WorldSize
      invariant WrapUp(v.y) == Wrap(v0.y) && v.x == Wrap(v0.x)
      decreases (-v.y).Floor
    {
      v := v.(y := v.y + Period);
    }
  }

  lemma {:induction false} WrapDownShift(c: real) returns (k: int)
    ensures k <= 0 && WrapDown(c) == c + Period * k as real
    decreases c.Floor
  {
    if c > WorldSize {
      var k' := WrapDownShift(c - Period);
      k := k' - 1;
    } else {
      k := 0;
    }
  }

  lemma {:induction false} WrapUpShift(c: real) returns (k: int)
    ensures k >= 0 && WrapUp(c) == c + Period * k as real
    decreases (-c).Floor
  {
    if c < -WorldSize {
      var k' := WrapUpShift(c + Period);
      k := k' + 1;
    } else {
      k := 0;
    }
  }

  /** `normalize` changes a coordinate by a whole number of periods. */
  lemma WrapShift(c: real) returns (k: int)
    ensures Wrap(c) == c + Period * k as real
  {
    var k1 := WrapDownShift(c);
    var k2 := WrapUpShift(WrapDown(c));
    k := k1 + k2;
  }

  /** A coordinate already inside the world is left alone. */
  lemma WrapInside(c: real)
    requires -WorldSize <= c <= WorldSize
    ensures Wrap(c) == c
  {
  }

  /**
   * A coordinate strictly inside the world is the only representative of its
   * class: any shift of it by whole periods wraps back to it.
   */
  lemma WrapOfShift(d: real, k: int)
    requires -WorldSize < d < WorldSize
    ensures Wrap(d + Period * k as real) == d
  {
    var c := d + Period * k as real;
    var j := WrapShift(c);
    var diff := j + k;
    assert Wrap(c) - d == Period * diff as real;
  }

  /** `normalize` is the identity on the world square, and hence idempotent. */
  lemma NormalizedInside(v: Vec2)
    requires InWorld(v)
    ensures Normalized(v) == v
  {
    WrapInside(v.x);
    WrapInside(v.y);
  }

  lemma NormalizedIdempotent(v: Vec2)
    ensures Normalized(Normalized(v)) == Normalized(v)
  {
    NormalizedInside(Normalized(v));
  }

  /** Each component of `normalize(v)` differs from `v`'s by whole periods. */
  lemma NormalizedShift(v: Vec2) returns (kx: int, ky: int)
    ensures Normalized(v).x == v.x + Period * kx as real
    ensures Normalized(v).y == v.y + Period * ky as real
  {
    kx := WrapShift(v.x);
    ky := WrapShift(v.y);
  }
}
