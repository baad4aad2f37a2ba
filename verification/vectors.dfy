/**
 * Two-dimensional vectors over the reals, standing for the game's `Vec2<f32>`.
 *
 * Dafny's reals have no square root, so the square root is a parameter `root`
 * of every operation that needs one; `IsRoot(root)` is its defining property.
 */
module Vectors {
  import opened Wrappers

  datatype Vec2 = Vec2(x: real, y: real) {
    function Plus(o: Vec2): Vec2 { Vec2(x + o.x, y + o.y) }
    function Minus(o: Vec2): Vec2 { Vec2(x - o.x, y - o.y) }
    function Scale(k: real): Vec2 { Vec2(x * k, y * k) }

    function LenSq(): (m: real)
      ensures 0.0 <= m
    {
      x * x + y * y
    }
  }

  const Zero := Vec2(0.0, 0.0)

  /**
   * `root` applied to `m`. The defining property of a square root is stated
   * on this term, so that it is only brought in where a proof asks for it
   * through `RootFacts`.
   */
  function Sqrt(root: real -> real, m: real): real {
    root(m)
  }

  /** `root` is the non-negative square root on the non-negative reals. */
  ghost predicate IsRoot(root: real -> real) {
    forall m {:trigger Sqrt(root, m)} :: 0.0 <= m ==> 0.0 <= Sqrt(root, m) && Sqrt(root, m) * Sqrt(root, m) == m
  }

  /** The defining property of `root` at one point. */
  lemma RootFacts(root: real -> real, m: real)
    requires IsRoot(root) && 0.0 <= m
    ensures 0.0 <= root(m) && root(m) * root(m) == m
  {
    assert Sqrt(root, m) == root(m);
  }

  /** The Euclidean length of `v`. */
  function Len(root: real -> real, v: Vec2): real {
    root(v.LenSq())
  }

  /** The only non-negative number whose square is `m` is `root(m)`. */
  lemma RootUnique(root: real -> real, m: real, r: real)
    requires IsRoot(root)
    requires 0.0 <= r && r * r == m
    ensures root(m) == r
  {
    RootFacts(root, m);
    SquaresEqual(root(m), r, m);
  }

  /** Two non-negative numbers with the same square are equal. */
  lemma SquaresEqual(s: real, r: real, m: real)
    requires 0.0 <= s && s * s == m && 0.0 <= r && r * r == m
    ensures s == r
  {
    assert (s - r) * (s + r) == 0.0;
    if s + r == 0.0 {
      assert s == 0.0 && r == 0.0;
    } else {
      assert s - r == (s - r) * (s + r) / (s + r);
    }
  }

  lemma LenNonNegative(root: real -> real, v: Vec2)
    requires IsRoot(root)
    ensures 0.0 <= Len(root, v)
    ensures Len(root, v) * Len(root, v) == v.LenSq()
  {
    RootFacts(root, v.LenSq());
  }

  /** The zero vector has length zero. */
  lemma LenOfZero(root: real -> real)
    requires IsRoot(root)
    ensures Len(root, Zero) == 0.0
  {
    RootUnique(root, 0.0, 0.0);
  }

  /** Scaling a vector by `k` scales its length by `|k|`. */
  lemma LenScale(root: real -> real, v: Vec2, k: real)
    requires IsRoot(root)
    ensures Len(root, v.Scale(k)) == Abs(k) * Len(root, v)
  {
    var l := Len(root, v);
    LenNonNegative(root, v);
    var a := Abs(k);
    assert a * a == k * k;
    calc {
      v.Scale(k).LenSq();
    ==
      (v.x * k) * (v.x * k) + (v.y * k) * (v.y * k);
    ==
      (k * k) * v.LenSq();
    ==
      (a * a) * (l * l);
    ==
      (a * l) * (a * l);
    }
    assert 0.0 <= a * l;
    RootUnique(root, v.Scale(k).LenSq(), a * l);
  }

  /**
   * geng's `Vec2::clamp(max)`: a vector longer than `max` is scaled down to
   * length `max`; a shorter one is returned unchanged.
   */
  function Clamp(root: real -> real, v: Vec2, max: real): (r: Vec2)
    requires IsRoot(root)
    ensures Len(root, r) <= Abs(max)
    ensures Len(root, v) <= max ==> r == v
    ensures 0.0 <= max && max < Len(root, v) ==> Len(root, r) == max
    ensures max < Len(root, v) && 0.0 < Len(root, v) ==> r.Scale(Len(root, v)) == v.Scale(max)
  {
    var l := Len(root, v);
    LenNonNegative(root, v);
    if l > max && l > 0.0 then
      LenScale(root, v, max / l);
      ScaleBack(v, max, l);
      v.Scale(max / l)
    else
      v
  }

  /** Scaling by `k / l` and then by `l` is scaling by `k`. */
  lemma ScaleBack(v: Vec2, k: real, l: real)
    requires l != 0.0
    ensures v.Scale(k / l).Scale(l) == v.Scale(k)
  {
    assert (k / l) * l == k;
    assert (v.x * (k / l)) * l == v.x * ((k / l) * l);
    assert (v.y * (k / l)) * l == v.y * ((k / l) * l);
  }

  /** Dividing a vector of non-zero length by its length gives length one. */
  lemma UnitLen(root: real -> real, v: Vec2)
    requires IsRoot(root)
    requires Len(root, v) != 0.0
    ensures Len(root, v.Scale(1.0 / Len(root, v))) == 1.0
  {
    var l := Len(root, v);
    LenNonNegative(root, v);
    var k := 1.0 / l;
    assert k * l == 1.0;
    calc {
      v.Scale(k).LenSq();
      (v.x * k) * (v.x * k) + (v.y * k) * (v.y * k);
      (k * k) * v.LenSq();
      (k * k) * (l * l);
      (k * l) * (k * l);
      1.0;
    }
    RootUnique(root, v.Scale(k).LenSq(), 1.0);
  }

  /** geng's `Vec2::normalize`: the unit vector along `v` (zero for the zero vector). */
  function Unit(root: real -> real, v: Vec2): (n: Vec2)
    requires IsRoot(root)
    ensures Len(root, v) != 0.0 ==> Len(root, n) == 1.0 && n.Scale(Len(root, v)) == v
    ensures Len(root, v) == 0.0 ==> n == Zero
    ensures v == Zero ==> n == Zero
  {
    var l := Len(root, v);
    if l == 0.0 then Zero
    else
      assert v != Zero by {
        if v == Zero { LenOfZero(root); }
      }
      UnitLen(root, v);
      ScaleBack(v, 1.0, l);
      assert v.Scale(1.0) == v;
      v.Scale(1.0 / l)
  }
}
