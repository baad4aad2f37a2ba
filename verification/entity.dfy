/**
 * The physical body shared by players, projectiles, food and sparks
 * (`Entity` in src/entity.rs), with its mass model and contact rules.
 *
 * An entity is always embedded by value in its owner, so each in-place
 * operation of the source is a function returning the updated entity (or
 * the updated pair of entities).
 */
module Entities {
  import opened Wrappers
  import opened Vectors
  import opened Torus

  datatype Color = Color(r: real, g: real, b: real, a: real)

  const White := Color(1.0, 1.0, 1.0, 1.0)
  const Green := Color(0.0, 1.0, 0.0, 1.0)
  const Red := Color(1.0, 0.0, 0.0, 1.0)

  /** The channel-wise average of two colours (`mix` in src/main.rs). */
  function Mix(c: Color, d: Color): Color {
    Color((c.r + d.r) / 2.0, (c.g + d.g) / 2.0, (c.b + d.b) / 2.0, (c.a + d.a) / 2.0)
  }

  datatype Entity = Entity(ownerId: Option<nat>, color: Color, pos: Vec2, vel: Vec2, size: real) {

    /** Mass is the square of the size (area-proportional). */
    function Mass(): (m: real)
      ensures 0.0 <= m
    {
      size * size
    }

    /** `add_mass`: the size becomes the root of the new mass, clamped at zero. */
    function AddMass(root: real -> real, delta: real): (e: Entity)
      requires IsRoot(root)
      ensures 0.0 <= e.size
      ensures e.Mass() == Max(0.0, Mass() + delta)
      ensures e == this.(size := e.size)
    {
      RootFacts(root, Max(0.0, size * size + delta));
      this.(size := root(Max(0.0, size * size + delta)))
    }

    /** `update`: one step of motion, wrapped back onto the torus. */
    function Update(dt: real): (e: Entity)
      ensures InWorld(e.pos)
      ensures e == this.(pos := e.pos)
      ensures e.pos == Normalized(pos.Plus(vel.Scale(dt)))
    {
      this.(pos := Normalized(pos.Plus(vel.Scale(dt))))
    }
  }

  datatype Pair = Pair(a: Entity, b: Entity)

  datatype HitOutcome = HitOutcome(hit: bool, attacker: Entity, target: Entity)

  /**
   * The overlap of two bodies, `(a.size + b.size) - distance`, capped at the
   * smaller size.
   */
  function Penetration(root: real -> real, a: Entity, b: Entity): (p: real)
    requires IsRoot(root)
    ensures p <= a.size && p <= b.size
    ensures p <= a.size + b.size - Len(root, Normalized(a.pos.Minus(b.pos)))
    ensures p == a.size || p == b.size || p == a.size + b.size - Len(root, Normalized(a.pos.Minus(b.pos)))
  {
    var p := (a.size + b.size) - Len(root, Normalized(a.pos.Minus(b.pos)));
    Min(p, Min(a.size, b.size))
  }

  /** The unit vector from `a` towards `b` along the shortest toroidal path. */
  function ContactNormal(root: real -> real, a: Entity, b: Entity): Vec2
    requires IsRoot(root)
  {
    Unit(root, Normalized(b.pos.Minus(a.pos)))
  }

  /**
   * The inverse-mass weights of `collide`: they sum to one and the heavier
   * body gets the smaller weight.
   */
  function Weights(a: Entity, b: Entity): (w: (real, real))
    requires 0.0 < a.Mass() && 0.0 < b.Mass()
    ensures w.0 + w.1 == 1.0
    ensures 0.0 < w.0 && 0.0 < w.1
    ensures w.0 <= w.1 <==> b.Mass() <= a.Mass()
  {
    var ma, mb := a.Mass(), b.Mass();
    var ka := 1.0 / ma;
    var kb := 1.0 / mb;
    var sumK := ka + kb;
    WeightsFacts(ma, mb);
    DivideMonotone(mb, ma, ma + mb);
    (ka / sumK, kb / sumK)
  }

  lemma WeightsFacts(ma: real, mb: real)
    requires 0.0 < ma && 0.0 < mb
    ensures 1.0 / ma / (1.0 / ma + 1.0 / mb) == mb / (ma + mb)
    ensures 1.0 / mb / (1.0 / ma + 1.0 / mb) == ma / (ma + mb)
  {
    var s := 1.0 / ma + 1.0 / mb;
    assert s == (ma + mb) / (ma * mb);
  }

  lemma DivideMonotone(x: real, y: real, d: real)
    requires 0.0 < d
    ensures x / d <= y / d <==> x <= y
  {
    assert x / d * d == x && y / d * d == y;
    if x <= y {
      assert (y - x) / d >= 0.0;
    }
  }

  /**
   * `collide`: overlapping bodies are pushed apart along the contact normal,
   * positionally only.
   */
  function Collide(root: real -> real, a: Entity, b: Entity): (r: Pair)
    requires IsRoot(root)
    ensures r.a == a.(pos := r.a.pos) && r.b == b.(pos := r.b.pos)
    ensures Penetration(root, a, b) <= 0.0 ==> r == Pair(a, b)
    ensures Penetration(root, a, b) > 0.0 ==>
      r.b.pos.Minus(r.a.pos) == b.pos.Minus(a.pos).Plus(ContactNormal(root, a, b).Scale(Penetration(root, a, b)))
  {
    var p := Penetration(root, a, b);
    var n := ContactNormal(root, a, b);
    if p > 0.0 then
      assert 0.0 < a.size && 0.0 < b.size;
      PositiveMass(a);
      PositiveMass(b);
      var w := Weights(a, b);
      SplitScale(n.Scale(p), w.0, w.1);
      Pair(a.(pos := a.pos.Minus(n.Scale(p).Scale(w.0))), b.(pos := b.pos.Plus(n.Scale(p).Scale(w.1))))
    else
      Pair(a, b)
  }

  /** Two shares of a vector whose weights sum to one add up to the vector. */
  lemma SplitScale(v: Vec2, u: real, t: real)
    requires u + t == 1.0
    ensures v.Scale(u).x + v.Scale(t).x == v.x && v.Scale(u).y + v.Scale(t).y == v.y
  {
    assert v.x * u + v.x * t == v.x * (u + t);
    assert v.y * u + v.y * t == v.y * (u + t);
  }

  /** Dividing a negated number negates the quotient. */
  lemma NegatedQuotient(x: real, k: real)
    requires k != 0.0
    ensures -x / k == -(x / k)
  {
    assert (-x / k) * k == -x;
  }

  lemma PositiveMass(e: Entity)
    requires 0.0 < e.size
    ensures 0.0 < e.Mass()
  {
    SquarePositive(e.size, e.Mass());
  }

  /** A square of a non-zero number, named `m`, is positive. */
  lemma SquareNonZero(x: real, m: real)
    requires x != 0.0 && m == x * x
    ensures 0.0 < m
  {
    if 0.0 < x {
      SquarePositive(x, m);
    } else {
      assert m == (-x) * (-x);
      SquarePositive(-x, m);
    }
  }

  /** A square of a positive number, named `m`, is positive. */
  lemma SquarePositive(x: real, m: real)
    requires 0.0 < x && m == x * x
    ensures 0.0 < m
  {
    calc {
      m;
    ==
      x * x;
    > { assert x * x > 0.0; }
      0.0;
    }
  }

  /** A square grows with its non-negative base. */
  lemma SquareMonotone(s: real, t: real, ms: real, mt: real)
    requires 0.0 <= t < s && ms == s * s && mt == t * t
    ensures mt < ms
  {
    calc {
      mt;
    ==
      t * t;
    <= { assert t * t <= t * s; }
      t * s;
    < { assert t * s < s * s; }
      s * s;
    ==
      ms;
    }
  }

  /**
   * `hit`: when the bodies overlap, the target loses the penetration depth
   * from its size and the attacker loses the target's lost mass divided by
   * `k`; the result says whether they overlapped.
   */
  function Hit(root: real -> real, attacker: Entity, target: Entity, k: real): (r: HitOutcome)
    requires IsRoot(root) && 0.0 < k
    ensures r.hit <==> 0.0 < Penetration(root, attacker, target)
    ensures !r.hit ==> r.attacker == attacker && r.target == target
    ensures r.hit ==> r.target == target.(size := target.size - Penetration(root, attacker, target))
    ensures r.hit ==> r.attacker == attacker.(size := r.attacker.size) && 0.0 <= r.attacker.size
    ensures r.hit ==> r.attacker.Mass() == Max(0.0, attacker.Mass() - (target.Mass() - r.target.Mass()) / k)
  {
    var p := Penetration(root, attacker, target);
    if p > 0.0 then
      var t := target.(size := Max(0.0, target.size - p));
      assert t.size == target.size - p;
      var lost := target.Mass() - t.Mass();
      NegatedQuotient(lost, k);
      HitOutcome(true, attacker.AddMass(root, -lost / k), t)
    else
      HitOutcome(false, attacker, target)
  }

  /**
   * `consume`: like `hit`, except that the consumer gains the target's lost
   * mass multiplied by `k`.
   */
  function Consume(root: real -> real, consumer: Entity, target: Entity, k: real): (r: Pair)
    requires IsRoot(root) && 0.0 < k
    ensures Penetration(root, consumer, target) <= 0.0 ==> r == Pair(consumer, target)
    ensures 0.0 < Penetration(root, consumer, target) ==>
      r.b == target.(size := target.size - Penetration(root, consumer, target))
    ensures r.a == consumer.(size := r.a.size)
    ensures 0.0 < Penetration(root, consumer, target) ==>
      0.0 <= r.a.size && r.a.Mass() == Max(0.0, consumer.Mass() + (target.Mass() - r.b.Mass()) * k)
  {
    var p := Penetration(root, consumer, target);
    if p > 0.0 then
      var t := target.(size := Max(0.0, target.size - p));
      assert t.size == target.size - p;
      var lost := target.Mass() - t.Mass();
      Pair(consumer.AddMass(root, lost * k), t)
    else
      Pair(consumer, target)
  }

  /**
   * A successful hit strictly shrinks the target, never below zero, and
   * never makes the attacker heavier.
   */
  lemma HitShrinksBoth(root: real -> real, attacker: Entity, target: Entity, k: real)
    requires IsRoot(root) && 0.0 < k
    requires Hit(root, attacker, target, k).hit
    ensures var r := Hit(root, attacker, target, k);
      0.0 <= r.target.size < target.size &&
      r.target.Mass() < target.Mass() &&
      r.attacker.Mass() <= attacker.Mass()
  {
    var r := Hit(root, attacker, target, k);
    SquareMonotone(target.size, r.target.size, target.Mass(), r.target.Mass());
    var lost := target.Mass() - r.target.Mass();
    assert 0.0 <= lost / k;
  }

  /**
   * Consuming never shrinks the consumer, and with `k = 1` the total mass of
   * the two bodies is conserved.
   */
  lemma ConsumeTransfersMass(root: real -> real, consumer: Entity, target: Entity, k: real)
    requires IsRoot(root) && 0.0 < k
    requires 0.0 < Penetration(root, consumer, target)
    ensures var r := Consume(root, consumer, target, k);
      0.0 <= r.b.size < target.size &&
      consumer.Mass() < r.a.Mass() &&
      r.a.Mass() - consumer.Mass() == k * (target.Mass() - r.b.Mass())
  {
    var r := Consume(root, consumer, target, k);
    SquareMonotone(target.size, r.b.size, target.Mass(), r.b.Mass());
    var lost := target.Mass() - r.b.Mass();
    assert 0.0 < lost * k;
  }

  /**
   * The split of a collision's push: the two displacements along the contact
   * normal add up to the penetration, and the heavier body moves the shorter
   * way.
   */
  lemma CollideSplitsPush(root: real -> real, a: Entity, b: Entity) returns (wa: real, wb: real)
    requires IsRoot(root)
    requires 0.0 < Penetration(root, a, b)
    ensures wa + wb == 1.0 && 0.0 < wa && 0.0 < wb
    ensures wa <= wb <==> b.Mass() <= a.Mass()
    ensures var n, p := ContactNormal(root, a, b), Penetration(root, a, b);
      Collide(root, a, b).a.pos == a.pos.Minus(n.Scale(p).Scale(wa)) &&
      Collide(root, a, b).b.pos == b.pos.Plus(n.Scale(p).Scale(wb))
  {
    PositiveMass(a);
    PositiveMass(b);
    var w := Weights(a, b);
    wa, wb := w.0, w.1;
  }
}
