/**
 * A projectile (src/projectile.rs): a body that trails a buffer of sparks.
 * Sparks are emitted at a rate proportional to the projectile's mass, age,
 * fade out and are dropped once they reach `SparkLife`.
 */
module Projectiles {
  import opened Wrappers
  import opened Vectors
  import opened Torus
  import opened Entities

  /** `Game::PROJECTILE_DEATH_SPEED`: how fast a flying projectile shrinks. */
  const ProjectileDeathSpeed: real := 0.1

  const SparkFreq: real := 500.0
  const SparkMaxSpeed: real := 5.0
  const SparkLife: real := 0.3
  /** The emission clock advances by this much per spark. */
  const SparkPeriod: real := 1.0 / SparkFreq

  /** A spark and its age in seconds. */
  datatype Spark = Spark(age: real, body: Entity)

  /** The alpha channel of a spark of the given age. */
  function SparkAlpha(age: real): real {
    (1.0 - age / SparkLife) * 0.5
  }

  /** `x` lies in `[size / 2, size]`, the range of a spark's size. */
  predicate InUpperHalf(x: real, size: real) {
    size / 2.0 <= x <= size
  }

  /** What a freshly emitted spark looks like, for a projectile body `from`. */
  ghost predicate IsEmission(s: Spark, from: Entity) {
    s.age == 0.0 &&
    s.body.ownerId == None &&
    s.body.color == Mix(White, from.color) &&
    s.body.pos == from.pos &&
    InUpperHalf(s.body.size, from.size) &&
    s.body.vel.LenSq() < SparkMaxSpeed * SparkMaxSpeed
  }

  /** One step of a spark: it ages, moves and fades. */
  function AgeSpark(s: Spark, dt: real): (t: Spark)
    ensures t.age == s.age + dt
    ensures t.body == s.body.Update(dt).(color := t.body.color)
    ensures t.body.color == s.body.color.(a := SparkAlpha(t.age))
  {
    var e := s.body.Update(dt);
    Spark(s.age + dt, e.(color := e.color.(a := SparkAlpha(s.age + dt))))
  }

  /** Every spark of `s` after one step. */
  function Aged(s: seq<Spark>, dt: real): (r: seq<Spark>)
    ensures |r| == |s|
    ensures forall i :: 0 <= i < |s| ==> r[i] == AgeSpark(s[i], dt)
  {
    seq(|s|, i requires 0 <= i < |s| => AgeSpark(s[i], dt))
  }

  /**
   * The sparks younger than `SparkLife`, in their original order (the
   * `retain` filter).
   */
  function {:induction false} Survivors(s: seq<Spark>): (r: seq<Spark>)
    ensures |r| <= |s|
    ensures forall x :: x in r ==> x in s && x.age < SparkLife
    ensures forall x :: x in s && x.age < SparkLife ==> x in r
  {
    if s == [] then []
    else if s[0].age < SparkLife then [s[0]] + Survivors(s[1..])
    else Survivors(s[1..])
  }

  /** Some spark of `s` is still younger than `SparkLife` after `dt` more seconds. */
  predicate Lingers(s: seq<Spark>, dt: real) {
    s != [] && (s[0].age + dt < SparkLife || Lingers(s[1..], dt))
  }
  lemma {:induction false} Fading(s: seq<Spark>, dt: real)
    ensures Survivors(Aged(s, dt)) != [] <==> Lingers(s, dt)
  {
    if s != [] {
      assert Aged(s, dt)[1..] == Aged(s[1..], dt);
      Fading(s[1..], dt);
    }
  }

  class Projectile {
    var entity: Entity
    var sparks: seq<Spark>
    var nextSpark: real
    var actuallyHit: bool

    /** `Projectile::new`: an empty, massless body at the origin. */
    constructor(ownerId: Option<nat>, color: Color)
      ensures entity == Entity(ownerId, color, Zero, Zero, 0.0)
      ensures sparks == [] && nextSpark == 0.0 && !actuallyHit
    {
      entity := Entity(ownerId, color, Zero, Zero, 0.0);
      sparks := [];
      nextSpark := 0.0;
      actuallyHit := false;
    }

    /** `alive`: the projectile still has a body or still has sparks. */
    predicate Alive()
      reads this
    {
      entity.size > 0.0 || |sparks| > 0
    }

    /**
     * `update`: move the body, emit sparks while the emission clock is
     * negative and the body has a size, then age every spark and drop the
     * expired ones. The sparks emitted in this step are returned as a ghost
     * value.
     */
    method Update(dt: real) returns (ghost emitted: seq<Spark>)
      modifies this
      ensures entity == old(entity).Update(dt)
      ensures actuallyHit == old(actuallyHit)
      ensures entity.size <= 0.0 ==> emitted == []
      ensures forall s :: s in emitted ==> IsEmission(s, entity)
      ensures nextSpark == old(nextSpark) - dt * old(entity).Mass() + |emitted| as real * SparkPeriod
      ensures 0.0 < entity.size ==> 0.0 <= nextSpark
      ensures |emitted| > 0 ==> nextSpark < SparkPeriod
      ensures sparks == Survivors(Aged(old(sparks) + emitted, dt))
      ensures forall s :: s in sparks ==> s.age < SparkLife
      // A body keeps the projectile alive; without one, only a spark young enough does.
      ensures 0.0 < entity.size ==> Alive()
      ensures entity.size <= 0.0 ==>
        (Alive() <==> Lingers(old(sparks), dt))
    {
      // `update` leaves the size alone, so the mass read before moving the
      // body is the one the source reads after it.
      var drain := dt * entity.Mass();
      entity := entity.Update(dt);
      emitted := EmitSparks(drain);
      AgeSparks(dt);
      if entity.size <= 0.0 {
        assert old(sparks) + emitted == old(sparks);
        Fading(old(sparks), dt);
      }
    }

    /** The emission clock and loop of `update`, for a clock drain of `drain`. */
    method EmitSparks(drain: real) returns (ghost emitted: seq<Spark>)
      modifies this`nextSpark, this`sparks
      ensures sparks == old(sparks) + emitted
      ensures entity.size <= 0.0 ==> emitted == []
      ensures forall s :: s in emitted ==> IsEmission(s, entity)
      ensures nextSpark == old(nextSpark) - drain + |emitted| as real * SparkPeriod
      ensures 0.0 < entity.size ==> 0.0 <= nextSpark
      ensures |emitted| > 0 ==> nextSpark < SparkPeriod
    {
      nextSpark := nextSpark - drain;
      emitted := [];
      while nextSpark < 0.0 && entity.size > 0.0
        invariant sparks == old(sparks) + emitted
        invariant nextSpark == old(nextSpark) - drain + |emitted| as real * SparkPeriod
        invariant |emitted| > 0 ==> nextSpark < SparkPeriod
        invariant entity.size <= 0.0 ==> emitted == []
        invariant forall s :: s in emitted ==> IsEmission(s, entity)
        decreases (-nextSpark * SparkFreq).Floor
      {
        nextSpark := nextSpark + SparkPeriod;
        var spark := NewSpark();
        sparks := sparks + [spark];
        emitted := emitted + [spark];
      }
    }

    /**
     * One spark of the emission loop: at the body's position, in its colour
     * mixed with white, with a random velocity shorter than
     * `SparkMaxSpeed` and a random size between half the body's and the
     * body's.
     */
    method NewSpark() returns (spark: Spark)
      requires 0.0 < entity.size
      ensures IsEmission(spark, entity)
    {
      assert Zero.LenSq() < SparkMaxSpeed * SparkMaxSpeed;
      var vel: Vec2 :| vel.LenSq() < SparkMaxSpeed * SparkMaxSpeed;
      assert InUpperHalf(entity.size, entity.size);
      var size: real :| InUpperHalf(size, entity.size);
      spark := Spark(0.0, Entity(None, Mix(White, entity.color), entity.pos, vel, size));
    }

    /** The ageing loop and the `retain` of `update`. */
    method AgeSparks(dt: real)
      modifies this
      ensures entity == old(entity) && actuallyHit == old(actuallyHit) && nextSpark == old(nextSpark)
      ensures sparks == Survivors(Aged(old(sparks), dt))
      ensures forall s :: s in sparks ==> s.age < SparkLife
    {
      var i := 0;
      while i < |sparks|
        invariant 0 <= i <= |sparks| == |old(sparks)|
        invariant entity == old(entity) && actuallyHit == old(actuallyHit) && nextSpark == old(nextSpark)
        invariant forall k :: 0 <= k < i ==> sparks[k] == AgeSpark(old(sparks)[k], dt)
        invariant forall k :: i <= k < |sparks| ==> sparks[k] == old(sparks)[k]
      {
        sparks := sparks[i := AgeSpark(sparks[i], dt)];
        i := i + 1;
      }
      assert sparks == Aged(old(sparks), dt);
      sparks := Survivors(sparks);
    }
  }
}
