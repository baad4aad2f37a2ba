/**
 * The value-level rules behind the pairwise phases of the world tick in
 * src/main.rs: the order in which the `split_at_mut` loops visit pairs, and
 * what the collide, hit and feeding passes do to a list of bodies.
 */
module Rounds {
  import opened Wrappers
  import opened Vectors
  import opened Entities

  /** A visit of the pair loop: `(prev, cur)` with `prev < cur`. */
  type Visit = (nat, nat)

  /** The visits made for `cur == i`: every `prev` in `0 .. i`, in order. */
  function VisitsOf(i: nat): (r: seq<Visit>)
    ensures |r| == i
    ensures forall k :: 0 <= k < i ==> r[k] == (k, i)
  {
    seq(i, k requires 0 <= k < i => (k, i))
  }

  /**
   * The visits of the whole pair loop over `n` elements, in order; each
   * names two distinct in-range elements, the earlier first.
   */
  function AllVisits(n: nat): (vs: seq<Visit>)
    ensures forall v :: v in vs ==> v.0 < v.1 < n
  {
    if n == 0 then [] else AllVisits(n - 1) + VisitsOf(n - 1)
  }

  /** Row `i` of the pair loop visits `(a, i)` once. */
  lemma OnceInRow(i: nat, a: nat)
    requires a < i
    ensures multiset(VisitsOf(i))[(a, i)] == 1
  {
    var s := VisitsOf(i);
    assert s == s[..a] + [s[a]] + s[a + 1..];
    assert (a, i) !in s[..a] by {
      forall t | 0 <= t < a ensures s[..a][t] != (a, i) { }
    }
    assert (a, i) !in s[a + 1..] by {
      forall t | a + 1 <= t < |s| ensures s[t] != (a, i) { }
    }
    calc {
      multiset(s)[(a, i)];
    ==
      multiset(s[..a])[(a, i)] + multiset([s[a]])[(a, i)] + multiset(s[a + 1..])[(a, i)];
    ==
      1;
    }
  }

  /** The pair loop visits every unordered pair of distinct elements exactly once. */
  lemma {:induction false} VisitsExactlyOnce(n: nat, a: nat, b: nat)
    requires a < b < n
    ensures multiset(AllVisits(n))[(a, b)] == 1
    ensures multiset(AllVisits(n))[(b, a)] == 0
  {
    var last := VisitsOf(n - 1);
    assert AllVisits(n) == AllVisits(n - 1) + last;
    assert (b, a) !in last;
    assert (b, a) !in AllVisits(n - 1);
    if b == n - 1 {
      assert (a, b) !in AllVisits(n - 1);
      OnceInRow(b, a);
    } else {
      VisitsExactlyOnce(n - 1, a, b);
      assert (a, b) !in last;
    }
  }

  /** The indices of a visit are valid for a list of `n` bodies. */
  predicate Fits(v: Visit, n: nat) {
    v.0 < v.1 < n
  }

  /** One step of the player-collide loop: `collide(prev, cur)`. */
  function CollideAt(root: real -> real, es: seq<Entity>, v: Visit): (r: seq<Entity>)
    requires IsRoot(root) && Fits(v, |es|)
    ensures |r| == |es|
  {
    var c := Collide(root, es[v.0], es[v.1]);
    es[v.0 := c.a][v.1 := c.b]
  }

  /** The bodies after the player-collide loop has made the visits `vs` in order. */
  function CollideAll(root: real -> real, es: seq<Entity>, vs: seq<Visit>): (r: seq<Entity>)
    requires IsRoot(root) && forall v :: v in vs ==> Fits(v, |es|)
    ensures |r| == |es|
  {
    if vs == [] then es
    else CollideAt(root, CollideAll(root, es, vs[..|vs| - 1]), vs[|vs| - 1])
  }

  /**
   * The collide pass moves bodies only: every size, velocity, owner and
   * colour is what it was.
   */
  lemma {:induction false} CollideMovesOnly(root: real -> real, es: seq<Entity>, vs: seq<Visit>)
    requires IsRoot(root) && forall v :: v in vs ==> Fits(v, |es|)
    ensures forall k :: 0 <= k < |es| ==>
      CollideAll(root, es, vs)[k] == es[k].(pos := CollideAll(root, es, vs)[k].pos)
  {
    if vs != [] {
      var init := vs[..|vs| - 1];
      assert forall v :: v in init ==> v in vs;
      CollideMovesOnly(root, es, init);
      var before := CollideAll(root, es, init);
      var v := vs[|vs| - 1];
      assert v in vs;
      var c := Collide(root, before[v.0], before[v.1]);
      assert CollideAll(root, es, vs) == before[v.0 := c.a][v.1 := c.b];
    }
  }

  /** One step of the projectile-hit loop: `cur.hit(prev, 1.0)`. */
  function ClashAt(root: real -> real, es: seq<Entity>, v: Visit): (r: seq<Entity>)
    requires IsRoot(root) && Fits(v, |es|)
    ensures |r| == |es|
  {
    var h := Hit(root, es[v.1], es[v.0], 1.0);
    es[v.1 := h.attacker][v.0 := h.target]
  }

  /** The projectile bodies after the projectile-hit loop has made the visits `vs`. */
  function ClashAll(root: real -> real, es: seq<Entity>, vs: seq<Visit>): (r: seq<Entity>)
    requires IsRoot(root) && forall v :: v in vs ==> Fits(v, |es|)
    ensures |r| == |es|
  {
    if vs == [] then es
    else ClashAt(root, ClashAll(root, es, vs[..|vs| - 1]), vs[|vs| - 1])
  }

  /** Projectiles hitting one another never gain mass, and keep their owner. */
  lemma {:induction false} ClashNeverFeeds(root: real -> real, es: seq<Entity>, vs: seq<Visit>)
    requires IsRoot(root) && forall v :: v in vs ==> Fits(v, |es|)
    ensures forall k :: 0 <= k < |es| ==>
      ClashAll(root, es, vs)[k].Mass() <= es[k].Mass() &&
      ClashAll(root, es, vs)[k].ownerId == es[k].ownerId
  {
    if vs != [] {
      var init := vs[..|vs| - 1];
      assert forall v :: v in init ==> v in vs;
      ClashNeverFeeds(root, es, init);
      var before := ClashAll(root, es, init);
      var v := vs[|vs| - 1];
      assert v in vs;
      var h := Hit(root, before[v.1], before[v.0], 1.0);
      if h.hit {
        HitShrinksBoth(root, before[v.1], before[v.0], 1.0);
      }
    }
  }

  /**
   * The outcome of one projectile's pass over the players: the projectile's
   * body, the players' bodies and whether any hit landed.
   */
  datatype Volley = Volley(shot: Entity, bodies: seq<Entity>, hit: bool)

  /**
   * The inner loop of the projectile-to-player pass over the first `b`
   * players: a projectile never hits a player with its own owner id, and
   * otherwise hits with strength `k`.
   */
  function VolleyUpTo(root: real -> real, e: Entity, ps: seq<Entity>, k: real, b: nat): (r: Volley)
    requires IsRoot(root) && 0.0 < k && b <= |ps|
    ensures |r.bodies| == |ps|
    ensures r.shot.ownerId == e.ownerId
    ensures forall j :: b <= j < |ps| ==> r.bodies[j] == ps[j]
  {
    if b == 0 then Volley(e, ps, false)
    else
      var v := VolleyUpTo(root, e, ps, k, b - 1);
      if v.shot.ownerId != v.bodies[b - 1].ownerId then
        var h := Hit(root, v.shot, v.bodies[b - 1], k);
        Volley(h.attacker, v.bodies[b - 1 := h.target], v.hit || h.hit)
      else v
  }

  /**
   * Owner exemption: the bodies of players sharing the projectile's owner id
   * come out of its pass untouched, and every other body keeps its owner
   * and never gains mass.
   */
  lemma {:induction false} VolleySparesOwner(root: real -> real, e: Entity, ps: seq<Entity>, k: real, b: nat)
    requires IsRoot(root) && 0.0 < k && b <= |ps|
    ensures forall j :: 0 <= j < |ps| && ps[j].ownerId == e.ownerId ==>
      VolleyUpTo(root, e, ps, k, b).bodies[j] == ps[j]
    ensures forall j :: 0 <= j < |ps| ==>
      VolleyUpTo(root, e, ps, k, b).bodies[j].ownerId == ps[j].ownerId &&
      VolleyUpTo(root, e, ps, k, b).bodies[j].Mass() <= ps[j].Mass()
    ensures VolleyUpTo(root, e, ps, k, b).shot.Mass() <= e.Mass()
  {
    if b > 0 {
      VolleySparesOwner(root, e, ps, k, b - 1);
      var v := VolleyUpTo(root, e, ps, k, b - 1);
      if v.shot.ownerId != v.bodies[b - 1].ownerId {
        var h := Hit(root, v.shot, v.bodies[b - 1], k);
        if h.hit {
          HitShrinksBoth(root, v.shot, v.bodies[b - 1], k);
        }
      }
    }
  }

  /** The outcome of the whole projectile-to-player pass. */
  datatype Barrage = Barrage(shots: seq<Entity>, bodies: seq<Entity>, hits: seq<bool>)

  /**
   * The projectile-to-player pass for the first `a` projectiles, each making
   * a full `VolleyUpTo` over the players as the earlier ones left them.
   */
  function BarrageUpTo(root: real -> real, qs: seq<Entity>, ps: seq<Entity>, k: real, a: nat): (r: Barrage)
    requires IsRoot(root) && 0.0 < k && a <= |qs|
    ensures |r.shots| == a && |r.hits| == a && |r.bodies| == |ps|
  {
    if a == 0 then Barrage([], ps, [])
    else
      var r := BarrageUpTo(root, qs, ps, k, a - 1);
      var v := VolleyUpTo(root, qs[a - 1], r.bodies, k, |r.bodies|);
      Barrage(r.shots + [v.shot], v.bodies, r.hits + [v.hit])
  }

  /**
   * A player whose owner id is shared by every projectile is untouched by the
   * whole pass; every player keeps its owner id and never gains mass.
   */
  lemma {:induction false} BarrageSparesOwner(root: real -> real, qs: seq<Entity>, ps: seq<Entity>, k: real, a: nat)
    requires IsRoot(root) && 0.0 < k && a <= |qs|
    ensures forall j :: 0 <= j < |ps| && (forall i :: 0 <= i < a ==> qs[i].ownerId == ps[j].ownerId) ==>
      BarrageUpTo(root, qs, ps, k, a).bodies[j] == ps[j]
    ensures forall j :: 0 <= j < |ps| ==>
      BarrageUpTo(root, qs, ps, k, a).bodies[j].ownerId == ps[j].ownerId &&
      BarrageUpTo(root, qs, ps, k, a).bodies[j].Mass() <= ps[j].Mass()
  {
    if a > 0 {
      BarrageSparesOwner(root, qs, ps, k, a - 1);
      var r := BarrageUpTo(root, qs, ps, k, a - 1);
      VolleySparesOwner(root, qs[a - 1], r.bodies, k, |r.bodies|);
    }
  }

  /** The total mass of a list of bodies. */
  function BodyMass(es: seq<Entity>): (m: real)
    ensures 0.0 <= m
  {
    if es == [] then 0.0 else BodyMass(es[..|es| - 1]) + es[|es| - 1].Mass()
  }

  /** Replacing one body changes the total by the difference of the two masses. */
  lemma {:induction false} BodyMassUpdate(es: seq<Entity>, i: nat, x: Entity)
    requires i < |es|
    ensures BodyMass(es[i := x]) == BodyMass(es) - es[i].Mass() + x.Mass()
  {
    var n := |es| - 1;
    assert es[i := x][..n] == if i == n then es[..n] else es[..n][i := x];
    if i < n {
      BodyMassUpdate(es[..n], i, x);
    }
  }

  /** `Game::FOOD_K`: a player gains this many times the mass a food loses. */
  const FoodK: real := 3.0

  /** One `consume`, overlapping or not, moves `FoodK` times the target's loss to the consumer. */
  lemma ConsumeGain(root: real -> real, consumer: Entity, target: Entity)
    requires IsRoot(root)
    ensures var c := Consume(root, consumer, target, FoodK);
      c.a.Mass() - consumer.Mass() == FoodK * (target.Mass() - c.b.Mass())
  {
    if 0.0 < Penetration(root, consumer, target) {
      ConsumeTransfersMass(root, consumer, target, FoodK);
    }
  }

  /** Adding a gain of `FoodK * y` to a running gain of `FoodK * x` gives a gain of `FoodK * (x + y)`. */
  lemma Accumulate(t0: real, t1: real, t2: real, g: real, x: real, y: real)
    requires t1 - t0 == FoodK * x && t2 == t1 + g && g == FoodK * y
    ensures t2 - t0 == FoodK * (x + y)
  {
  }

  /** The outcome of one food's pass over the players. */
  datatype Meal = Meal(food: Entity, bodies: seq<Entity>)

  /**
   * The inner loop of the feeding pass over the first `b` players: each one
   * consumes what it overlaps of the food with factor `FoodK`.
   */
  function FeedUpTo(root: real -> real, f: Entity, ps: seq<Entity>, b: nat): (r: Meal)
    requires IsRoot(root) && b <= |ps|
    ensures |r.bodies| == |ps|
    ensures forall j :: b <= j < |ps| ==> r.bodies[j] == ps[j]
  {
    if b == 0 then Meal(f, ps)
    else
      var r := FeedUpTo(root, f, ps, b - 1);
      var c := Consume(root, r.bodies[b - 1], r.food, FoodK);
      Meal(c.b, r.bodies[b - 1 := c.a])
  }

  /**
   * Feeding reshapes no body: the food keeps its owner, colour and position,
   * never grows and never drops below size zero from a size of at least
   * zero, and no player shrinks.
   */
  lemma {:induction false} FeedOnlyResizes(root: real -> real, f: Entity, ps: seq<Entity>, b: nat)
    requires IsRoot(root) && b <= |ps|
    ensures var r := FeedUpTo(root, f, ps, b);
      r.food == f.(size := r.food.size) && r.food.size <= f.size && (0.0 <= f.size ==> 0.0 <= r.food.size) &&
      forall j :: 0 <= j < |ps| ==> ps[j].Mass() <= r.bodies[j].Mass() && r.bodies[j] == ps[j].(size := r.bodies[j].size)
  {
    if b > 0 {
      FeedOnlyResizes(root, f, ps, b - 1);
      var r := FeedUpTo(root, f, ps, b - 1);
      var c := Consume(root, r.bodies[b - 1], r.food, FoodK);
      assert FeedUpTo(root, f, ps, b) == Meal(c.b, r.bodies[b - 1 := c.a]);
      if 0.0 < Penetration(root, r.bodies[b - 1], r.food) {
        ConsumeTransfersMass(root, r.bodies[b - 1], r.food, FoodK);
      }
    }
  }

  /** Feeding conserves mass up to the factor `FoodK`: the players gain exactly `FoodK` times what the food loses. */
  lemma {:induction false} FeedTransfersMass(root: real -> real, f: Entity, ps: seq<Entity>, b: nat)
    requires IsRoot(root) && b <= |ps|
    ensures var r := FeedUpTo(root, f, ps, b);
      BodyMass(r.bodies) - BodyMass(ps) == FoodK * (f.Mass() - r.food.Mass())
  {
    if b > 0 {
      FeedTransfersMass(root, f, ps, b - 1);
      var r, r2 := FeedUpTo(root, f, ps, b - 1), FeedUpTo(root, f, ps, b);
      MealGain(root, f, ps, b);
      Accumulate(BodyMass(ps), BodyMass(r.bodies), BodyMass(r2.bodies),
                 BodyMass(r2.bodies) - BodyMass(r.bodies), f.Mass() - r.food.Mass(), r.food.Mass() - r2.food.Mass());
    }
  }

  /** The `b`-th player's meal moves `FoodK` times what the food loses to the players. */
  lemma MealGain(root: real -> real, f: Entity, ps: seq<Entity>, b: nat)
    requires IsRoot(root) && 0 < b <= |ps|
    ensures var r, r2 := FeedUpTo(root, f, ps, b - 1), FeedUpTo(root, f, ps, b);
      BodyMass(r2.bodies) - BodyMass(r.bodies) == FoodK * (r.food.Mass() - r2.food.Mass())
  {
    var r := FeedUpTo(root, f, ps, b - 1);
    var c := Consume(root, r.bodies[b - 1], r.food, FoodK);
    assert FeedUpTo(root, f, ps, b) == Meal(c.b, r.bodies[b - 1 := c.a]);
    BodyMassUpdate(r.bodies, b - 1, c.a);
    ConsumeGain(root, r.bodies[b - 1], r.food);
  }

  /** The outcome of the whole feeding pass. */
  datatype Feast = Feast(foods: seq<Entity>, bodies: seq<Entity>)

  /** The feeding pass for the first `a` foods, each over all players. */
  function FeastUpTo(root: real -> real, fs: seq<Entity>, ps: seq<Entity>, a: nat): (r: Feast)
    requires IsRoot(root) && a <= |fs|
    ensures |r.foods| == a && |r.bodies| == |ps|
  {
    if a == 0 then Feast([], ps)
    else
      var r := FeastUpTo(root, fs, ps, a - 1);
      var m := FeedUpTo(root, fs[a - 1], r.bodies, |r.bodies|);
      Feast(r.foods + [m.food], m.bodies)
  }

  /** Over the whole feeding pass no food grows or ends below size zero. */
  lemma {:induction false} FeastOnlyShrinksFood(root: real -> real, fs: seq<Entity>, ps: seq<Entity>, a: nat)
    requires IsRoot(root) && a <= |fs|
    requires forall i :: 0 <= i < |fs| ==> 0.0 <= fs[i].size
    ensures forall i :: 0 <= i < a ==> 0.0 <= FeastUpTo(root, fs, ps, a).foods[i].size <= fs[i].size
  {
    if a > 0 {
      FeastOnlyShrinksFood(root, fs, ps, a - 1);
      var r := FeastUpTo(root, fs, ps, a - 1);
      FeedOnlyResizes(root, fs[a - 1], r.bodies, |r.bodies|);
    }
  }

  /** Over the whole feeding pass every player keeps its owner, colour, position and velocity, and none gets lighter. */
  lemma {:induction false} FeastOnlyGrowsPlayers(root: real -> real, fs: seq<Entity>, ps: seq<Entity>, a: nat)
    requires IsRoot(root) && a <= |fs|
    ensures forall j :: 0 <= j < |ps| ==>
      ps[j].Mass() <= FeastUpTo(root, fs, ps, a).bodies[j].Mass() &&
      FeastUpTo(root, fs, ps, a).bodies[j] == ps[j].(size := FeastUpTo(root, fs, ps, a).bodies[j].size)
  {
    if a > 0 {
      FeastOnlyGrowsPlayers(root, fs, ps, a - 1);
      var r := FeastUpTo(root, fs, ps, a - 1);
      FeedOnlyResizes(root, fs[a - 1], r.bodies, |r.bodies|);
    }
  }

  /** Over the whole feeding pass the players gain `FoodK` times the mass the foods lose. */
  lemma {:induction false} FeastTransfersMass(root: real -> real, fs: seq<Entity>, ps: seq<Entity>, a: nat)
    requires IsRoot(root) && a <= |fs|
    ensures var r := FeastUpTo(root, fs, ps, a);
      BodyMass(r.bodies) - BodyMass(ps) == FoodK * (BodyMass(fs[..a]) - BodyMass(r.foods))
  {
    if a > 0 {
      FeastTransfersMass(root, fs, ps, a - 1);
      var r := FeastUpTo(root, fs, ps, a - 1);
      FeedTransfersMass(root, fs[a - 1], r.bodies, |r.bodies|);
      var m := FeedUpTo(root, fs[a - 1], r.bodies, |r.bodies|);
      assert FeastUpTo(root, fs, ps, a) == Feast(r.foods + [m.food], m.bodies);
      assert fs[..a][..a - 1] == fs[..a - 1];
      assert (r.foods + [m.food])[..a - 1] == r.foods;
      var x, y := BodyMass(fs[..a - 1]) - BodyMass(r.foods), fs[a - 1].Mass() - m.food.Mass();
      assert BodyMass(fs[..a]) - BodyMass(r.foods + [m.food]) == x + y;
      Accumulate(BodyMass(ps), BodyMass(r.bodies), BodyMass(m.bodies), BodyMass(m.bodies) - BodyMass(r.bodies), x, y);
    }
  }
}
