/**
 * Food (src/food.rs): an edible body drawn as a cloud of small parts that
 * together carry the food's mass, and that spread out from its centre as
 * the food's animation clock runs from 0 to 1.
 */
module Foods {
  import opened Wrappers
  import opened Vectors
  import opened Entities

  const PreferredMass: real := 0.02
  const ColorOff: real := 0.3

  /** The smallest integer not below `x`. */
  function Ceil(x: real): (n: int)
    ensures n as real - 1.0 < x <= n as real
  {
    -((-x).Floor)
  }

  /** `part_count`: enough parts that none is heavier than `PreferredMass`. */
  function PartCount(size: real): (n: nat)
    ensures n as real - 1.0 < size * size / PreferredMass <= n as real
    ensures n == 0 <==> size == 0.0
  {
    var c := Ceil(size * size / PreferredMass);
    if size != 0.0 then
      SquareNonZero(size, size * size);
      c
    else
      c
  }

  /** The size of each of `n` parts sharing the mass of a food of size `size`. */
  function PartSize(root: real -> real, size: real, n: nat): real
    requires IsRoot(root)
  {
    if n == 0 then 0.0
    else
      RootFacts(root, n as real);
      size / root(n as real)
  }

  /** A part: its direction from the centre and its body. */
  datatype Part = Part(offset: Vec2, body: Entity)

  /** The colour range of a part: dark to light green. */
  predicate PartColor(c: Color) {
    0.0 <= c.r <= ColorOff && 1.0 - ColorOff <= c.g <= 1.0 && 0.0 <= c.b <= ColorOff && c.a == 1.0
  }

  /**
   * The parts `Food::new` builds for a food of the given size at `pos`:
   * `PartCount(size)` bodies of equal size `size / sqrt(count)`, at rest at
   * the centre, each with a direction inside the unit circle.
   */
  ghost predicate PartsOf(root: real -> real, pos: Vec2, size: real, parts: seq<Part>)
    requires IsRoot(root)
  {
    |parts| == PartCount(size) &&
    forall i :: 0 <= i < |parts| ==>
      parts[i].offset.LenSq() < 1.0 &&
      PartColor(parts[i].body.color) &&
      parts[i].body == Entity(None, parts[i].body.color, pos, Zero, PartSize(root, size, |parts|))
  }

  /** The total mass of a list of parts. */
  function TotalMass(parts: seq<Part>): (m: real)
    ensures 0.0 <= m
  {
    if parts == [] then 0.0 else parts[0].body.Mass() + TotalMass(parts[1..])
  }

  /** Parts of equal mass `m` weigh `m` times their number. */
  lemma {:induction false} TotalMassUniform(parts: seq<Part>, m: real)
    requires forall i :: 0 <= i < |parts| ==> parts[i].body.Mass() == m
    ensures TotalMass(parts) == |parts| as real * m
  {
    if parts != [] {
      TotalMassUniform(parts[1..], m);
    }
  }

  /** The parts of a food carry exactly the food's mass. */
  lemma PartsConserveMass(root: real -> real, pos: Vec2, size: real, parts: seq<Part>)
    requires IsRoot(root)
    requires PartsOf(root, pos, size, parts)
    ensures TotalMass(parts) == size * size
  {
    if parts == [] {
      assert size == 0.0;
    } else {
      var p := PartSize(root, size, |parts|);
      forall i | 0 <= i < |parts|
        ensures parts[i].body.Mass() == p * p
      {
        assert parts[i].body.size == p;
      }
      TotalMassUniform(parts, p * p);
      EqualShares(root, size, |parts|);
    }
  }

  /** `n` shares of size `size / √n` carry the mass `size²` between them. */
  lemma EqualShares(root: real -> real, size: real, n: nat)
    requires IsRoot(root) && 0 < n
    ensures n as real * (PartSize(root, size, n) * PartSize(root, size, n)) == size * size
  {
    var r := root(n as real);
    RootFacts(root, n as real);
    var q := size / r;
    assert q * r == size;
    calc {
      n as real * (q * q);
      (r * r) * (q * q);
      (q * r) * (q * r);
    }
  }

  /** How far the parts have spread at a given clock value, `1 - (1 - t)²`. */
  function Spread(t: real): (s: real)
    ensures 0.0 <= t <= 1.0 ==> 0.0 <= s <= 1.0
    ensures t == 1.0 ==> s == 1.0
    ensures t == 0.0 ==> s == 0.0
  {
    var u := 1.0 - t;
    UnitSquare(u, u * u);
    1.0 - u * u
  }

  /** The square `m` of a number in `[0, 1]` is in `[0, 1]`. */
  lemma UnitSquare(u: real, m: real)
    requires m == u * u
    ensures 0.0 <= u <= 1.0 ==> 0.0 <= m <= 1.0
    ensures u == 0.0 ==> m == 0.0
    ensures u == 1.0 ==> m == 1.0
  {
    if 0.0 <= u <= 1.0 {
      calc {
        m;
      ==
        u * u;
      <= { assert u * u <= u * 1.0; }
        1.0;
      }
    }
  }

  /** The spread grows with the clock on `[0, 1]`. */
  lemma SpreadMonotone(t: real, t': real)
    requires 0.0 <= t <= t' <= 1.0
    ensures Spread(t) <= Spread(t')
  {
    var u, u' := 1.0 - t, 1.0 - t';
    calc {
      Spread(t);
    ==
      1.0 - u * u;
    <= { assert u' * u' <= u' * u; assert u' * u <= u * u; }
      1.0 - u' * u';
    ==
      Spread(t');
    }
  }

  /** Where `update` puts a part of a food with the given centre, size and clock. */
  function PartPos(center: Vec2, size: real, offset: Vec2, time: real): Vec2 {
    center.Plus(offset.Scale(size).Scale(Spread(time)))
  }

  class Food {
    var entity: Entity
    var parts: seq<Part>
    var time: real

    /** The animation clock stays within `[0, 1]`. */
    predicate Valid()
      reads this
    {
      0.0 <= time <= 1.0
    }

    /**
     * `Food::new`: a green body at rest at `pos` with its parts; the parts'
     * directions and shades are chosen at random.
     */
    constructor(root: real -> real, pos: Vec2, size: real)
      requires IsRoot(root)
      ensures Valid()
      ensures entity == Entity(None, Green, pos, Zero, size)
      ensures PartsOf(root, pos, size, parts)
      ensures time == 0.0
    {
      var count := PartCount(size);
      var partSize := PartSize(root, size, count);
      var still := seq(count, _ => Zero);
      assert |still| == count && forall i :: 0 <= i < count ==> still[i].LenSq() < 1.0;
      var offsets: seq<Vec2> :| |offsets| == count && forall i :: 0 <= i < count ==> offsets[i].LenSq() < 1.0;
      var greens := seq(count, _ => Green);
      assert |greens| == count && forall i :: 0 <= i < count ==> PartColor(greens[i]);
      var shades: seq<Color> :| |shades| == count && forall i :: 0 <= i < count ==> PartColor(shades[i]);
      var ps := seq(count, i requires 0 <= i < count => Part(offsets[i], Entity(None, shades[i], pos, Zero, partSize)));
      entity := Entity(None, Green, pos, Zero, size);
      parts := ps;
      time := 0.0;
    }

    /**
     * `update`: advance the clock three times as fast as real time, capped
     * at 1, and move every part out along its direction by the food's size
     * times the current spread.
     */
    method Update(dt: real)
      modifies this`time, this`parts
      ensures entity == old(entity)
      ensures time == Min(old(time) + dt * 3.0, 1.0)
      ensures time <= 1.0
      ensures 0.0 <= dt && old(time) <= 1.0 ==> old(time) <= time
      ensures 0.0 <= dt && old(Valid()) ==> Valid()
      ensures |parts| == |old(parts)|
      ensures forall i :: 0 <= i < |parts| ==>
        parts[i].offset == old(parts[i].offset) &&
        parts[i].body == old(parts[i].body).(pos := PartPos(entity.pos, entity.size, parts[i].offset, time))
    {
      time := Min(time + dt * 3.0, 1.0);
      var i := 0;
      while i < |parts|
        invariant 0 <= i <= |parts| == |old(parts)|
        invariant entity == old(entity) && time == Min(old(time) + dt * 3.0, 1.0)
        invariant forall k :: 0 <= k < |parts| ==> parts[k].offset == old(parts[k].offset)
        invariant forall k :: 0 <= k < i ==>
          parts[k].body == old(parts[k].body).(pos := PartPos(entity.pos, entity.size, parts[k].offset, time))
        invariant forall k :: i <= k < |parts| ==> parts[k] == old(parts[k])
      {
        var p := parts[i];
        parts := parts[i := p.(body := p.body.(pos := PartPos(entity.pos, entity.size, p.offset, time)))];
        i := i + 1;
      }
    }
  }

  /** Once the clock has reached 1, each part sits at its full offset. */
  lemma FullySpread(center: Vec2, size: real, offset: Vec2)
    ensures PartPos(center, size, offset, 1.0) == center.Plus(offset.Scale(size))
  {
    assert offset.Scale(size).Scale(1.0) == offset.Scale(size);
  }
}
