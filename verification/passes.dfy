/**
 * The loops of the world tick in src/main.rs that walk the lists of
 * players, projectiles and food, each written as a method over the list of
 * objects and proved against the value-level rule of `Rounds` it follows.
 */
module Passes {
  import opened Wrappers
  import opened Vectors
  import opened Entities
  import opened Projectiles
  import opened Foods
  import opened Players
  import opened Rounds

  /** No element occurs twice. */
  predicate Distinct<T(==)>(s: seq<T>) {
    forall i, j :: 0 <= i < j < |s| ==> s[i] != s[j]
  }

  /**
   * `Vec::retain`: the elements of `s` whose flag in `keep` is set, in
   * their original order.
   */
  function Select<T>(s: seq<T>, keep: seq<bool>): (r: seq<T>)
    requires |keep| == |s|
    ensures |r| <= |s|
    ensures forall i :: 0 <= i < |s| && keep[i] ==> s[i] in r
    ensures forall x :: x in r ==> exists i :: 0 <= i < |s| && keep[i] && s[i] == x
  {
    if s == [] then []
    else
      var n := |s| - 1;
      var r := Select(s[..n], keep[..n]);
      assert forall i :: 0 <= i < n ==> s[..n][i] == s[i] && keep[..n][i] == keep[i];
      r + if keep[n] then [s[n]] else []
  }

  /** Keeping a selection of a list without repetitions gives a list without repetitions. */
  lemma {:induction false} SelectDistinct<T>(s: seq<T>, keep: seq<bool>)
    requires |keep| == |s| && Distinct(s)
    ensures Distinct(Select(s, keep))
  {
    if s != [] {
      var n := |s| - 1;
      SelectDistinct(s[..n], keep[..n]);
      if keep[n] {
        var r := Select(s[..n], keep[..n]);
        assert forall i :: 0 <= i < n ==> s[..n][i] != s[n];
      }
    }
  }

  /** Which players `retain(|e| e.size > 0.0)` keeps. */
  function LivingMask(ps: seq<Player>): (keep: seq<bool>)
    reads ps
    ensures |keep| == |ps| && forall i :: 0 <= i < |ps| ==> (keep[i] <==> ps[i].entity.size > 0.0)
  {
    seq(|ps|, i reads ps requires 0 <= i < |ps| => ps[i].entity.size > 0.0)
  }

  /** Which projectiles `retain(|e| e.alive())` keeps. */
  function FlyingMask(qs: seq<Projectile>): (keep: seq<bool>)
    reads qs
    ensures |keep| == |qs| && forall i :: 0 <= i < |qs| ==> (keep[i] <==> qs[i].Alive())
  {
    seq(|qs|, i reads qs requires 0 <= i < |qs| => qs[i].Alive())
  }

  /** Which foods `retain(|e| e.size > 0.0)` keeps. */
  function UneatenMask(fs: seq<Food>): (keep: seq<bool>)
    reads fs
    ensures |keep| == |fs| && forall i :: 0 <= i < |fs| ==> (keep[i] <==> fs[i].entity.size > 0.0)
  {
    seq(|fs|, i reads fs requires 0 <= i < |fs| => fs[i].entity.size > 0.0)
  }

  /** The bodies of the players of `ps`, in order. */
  function Bodies(ps: seq<Player>): (es: seq<Entity>)
    reads ps
    ensures |es| == |ps| && forall k :: 0 <= k < |ps| ==> es[k] == ps[k].entity
  {
    seq(|ps|, k reads ps requires 0 <= k < |ps| => ps[k].entity)
  }

  /** The bodies of the projectiles of `qs`, in order. */
  function Shots(qs: seq<Projectile>): (es: seq<Entity>)
    reads qs
    ensures |es| == |qs| && forall k :: 0 <= k < |qs| ==> es[k] == qs[k].entity
  {
    seq(|qs|, k reads qs requires 0 <= k < |qs| => qs[k].entity)
  }

  /** The spark buffers of the projectiles of `qs`, in order. */
  function Trails(qs: seq<Projectile>): (ss: seq<seq<Spark>>)
    reads qs
    ensures |ss| == |qs| && forall k :: 0 <= k < |qs| ==> ss[k] == qs[k].sparks
  {
    seq(|qs|, k reads qs requires 0 <= k < |qs| => qs[k].sparks)
  }

  /** The hit flags of the projectiles of `qs`, in order. */
  function Flags(qs: seq<Projectile>): (hs: seq<bool>)
    reads qs`actuallyHit
    ensures |hs| == |qs| && forall k :: 0 <= k < |qs| ==> hs[k] == qs[k].actuallyHit
  {
    if qs == [] then [] else Flags(qs[..|qs| - 1]) + [qs[|qs| - 1].actuallyHit]
  }

  /** Flag by flag, whether it was set in `a` or is set in `b`. */
  function Either(a: seq<bool>, b: seq<bool>): (r: seq<bool>)
    requires |a| == |b|
    ensures |r| == |a| && forall k :: 0 <= k < |a| ==> (r[k] <==> a[k] || b[k])
  {
    seq(|a|, k requires 0 <= k < |a| => a[k] || b[k])
  }

  /** The bodies of the foods of `fs`, in order. */
  function Morsels(fs: seq<Food>): (es: seq<Entity>)
    reads fs
    ensures |es| == |fs| && forall k :: 0 <= k < |fs| ==> es[k] == fs[k].entity
  {
    seq(|fs|, k reads fs requires 0 <= k < |fs| => fs[k].entity)
  }

  /** A flying projectile's body after one tick: it shrinks by `ProjectileDeathSpeed * dt`, then moves. */
  function Decayed(e: Entity, dt: real): (d: Entity)
    ensures d.size == e.size - ProjectileDeathSpeed * dt
    ensures d == e.(pos := d.pos, size := d.size)
  {
    e.(size := e.size - ProjectileDeathSpeed * dt).Update(dt)
  }

  /** The bodies `es` after one tick of flight, each by `Decayed`. */
  function Decays(es: seq<Entity>, dt: real): (ds: seq<Entity>)
    ensures |ds| == |es| && forall k :: 0 <= k < |es| ==> ds[k] == Decayed(es[k], dt)
  {
    seq(|es|, k requires 0 <= k < |es| => Decayed(es[k], dt))
  }

  /**
   * The spark buffers after one tick of flight: each buffer `ss[k]`, with
   * the sparks `em[k]` emitted into it, aged and filtered.
   */
  function Burned(ss: seq<seq<Spark>>, em: seq<seq<Spark>>, dt: real): (r: seq<seq<Spark>>)
    requires |ss| == |em|
    ensures |r| == |ss| && forall k :: 0 <= k < |ss| ==> r[k] == Survivors(Aged(ss[k] + em[k], dt))
  {
    seq(|ss|, k requires 0 <= k < |ss| => Survivors(Aged(ss[k] + em[k], dt)))
  }

  /**
   * Which projectiles are alive after one tick of flight, from their
   * bodies `es` and sparks `ss` before it: those with size left after the
   * decay, and those with a spark that lingers.
   */
  function Lasting(es: seq<Entity>, ss: seq<seq<Spark>>, dt: real): (keep: seq<bool>)
    requires |es| == |ss|
    ensures |keep| == |es| &&
      forall k :: 0 <= k < |es| ==> (keep[k] <==> 0.0 < Decayed(es[k], dt).size || Lingers(ss[k], dt))
  {
    seq(|es|, k requires 0 <= k < |es| => 0.0 < Decayed(es[k], dt).size || Lingers(ss[k], dt))
  }

  /**
   * The projectile loop of `update`: every flying projectile shrinks by
   * `ProjectileDeathSpeed * dt` and then runs `Projectile::update`; none of
   * them changes its hit flag. Its spark buffer becomes the survivors of
   * the old sparks and the ones it emitted, `emitted[k]`, aged; so it stays
   * alive exactly when it still has size or an old spark lingers.
   */
  method DecayEach(qs: seq<Projectile>, dt: real) returns (ghost emitted: seq<seq<Spark>>)
    requires Distinct(qs)
    modifies qs
    ensures |emitted| == |qs|
    ensures Shots(qs) == Decays(old(Shots(qs)), dt) && Flags(qs) == old(Flags(qs))
    ensures Trails(qs) == Burned(old(Trails(qs)), emitted, dt)
    ensures FlyingMask(qs) == Lasting(old(Shots(qs)), old(Trails(qs)), dt)
  {
    ghost var es := Shots(qs);
    ghost var hs := Flags(qs);
    ghost var ss := Trails(qs);
    emitted := [];
    for i := 0 to |qs|
      invariant Decaying(qs, i, es, hs, ss, emitted, dt)
    {
      ghost var e := DecayOne(qs, i, es, hs, ss, emitted, dt);
      emitted := emitted + [e];
    }
    DecayedBodies(qs, es, hs, ss, emitted, dt);
    DecayedFlags(qs, es, hs, ss, emitted, dt);
    DecayedTrails(qs, es, hs, ss, emitted, dt);
    DecayedMask(qs, es, hs, ss, emitted, dt);
  }

  /** The finished projectile loop, list by list: the bodies. */
  lemma DecayedBodies(qs: seq<Projectile>, es: seq<Entity>, hs: seq<bool>, ss: seq<seq<Spark>>, em: seq<seq<Spark>>, dt: real)
    requires Decaying(qs, |qs|, es, hs, ss, em, dt)
    ensures Shots(qs) == Decays(es, dt)
  {
  }

  /** The finished projectile loop, list by list: the hit flags. */
  lemma DecayedFlags(qs: seq<Projectile>, es: seq<Entity>, hs: seq<bool>, ss: seq<seq<Spark>>, em: seq<seq<Spark>>, dt: real)
    requires Decaying(qs, |qs|, es, hs, ss, em, dt)
    ensures Flags(qs) == hs
  {
  }

  /** The finished projectile loop, list by list: the spark buffers. */
  lemma DecayedTrails(qs: seq<Projectile>, es: seq<Entity>, hs: seq<bool>, ss: seq<seq<Spark>>, em: seq<seq<Spark>>, dt: real)
    requires Decaying(qs, |qs|, es, hs, ss, em, dt)
    ensures Trails(qs) == Burned(ss, em, dt)
  {
  }

  /** The finished projectile loop, list by list: which projectiles are alive. */
  lemma DecayedMask(qs: seq<Projectile>, es: seq<Entity>, hs: seq<bool>, ss: seq<seq<Spark>>, em: seq<seq<Spark>>, dt: real)
    requires Decaying(qs, |qs|, es, hs, ss, em, dt)
    ensures FlyingMask(qs) == Lasting(es, ss, dt)
  {
  }

  /**
   * The projectile loop has run for the first `i` projectiles, which had
   * the bodies `es`, the hit flags `hs` and the sparks `ss`, and emitted
   * the sparks `em`.
   */
  ghost predicate Decaying(qs: seq<Projectile>, i: nat, es: seq<Entity>, hs: seq<bool>, ss: seq<seq<Spark>>,
                           em: seq<seq<Spark>>, dt: real)
    reads qs
  {
    i == |em| && i <= |qs| == |es| == |hs| == |ss| &&
    (forall k :: 0 <= k < i ==>
      qs[k].entity == Decayed(es[k], dt) && qs[k].actuallyHit == hs[k] &&
      qs[k].sparks == Survivors(Aged(ss[k] + em[k], dt)) &&
      (forall s :: s in qs[k].sparks ==> s.age < SparkLife) &&
      (qs[k].Alive() <==> 0.0 < qs[k].entity.size || Lingers(ss[k], dt))) &&
    (forall k :: i <= k < |qs| ==> qs[k].entity == es[k] && qs[k].actuallyHit == hs[k] && qs[k].sparks == ss[k])
  }

  /** One turn of the projectile loop, for projectile `i`. */
  method DecayOne(qs: seq<Projectile>, i: nat, ghost es: seq<Entity>, ghost hs: seq<bool>, ghost ss: seq<seq<Spark>>,
                  ghost em: seq<seq<Spark>>, dt: real) returns (ghost emitted: seq<Spark>)
    requires Distinct(qs) && i < |qs| && Decaying(qs, i, es, hs, ss, em, dt)
    modifies qs[i]
    ensures Decaying(qs, i + 1, es, hs, ss, em + [emitted], dt)
  {
    var q := qs[i];
    q.entity := q.entity.(size := q.entity.size - ProjectileDeathSpeed * dt);
    emitted := q.Update(dt);
  }

  /** The visits of the pair loop over `i` elements and then the first `j` with `cur == i`. */
  function VisitsUpTo(i: nat, j: nat): (vs: seq<Visit>)
    requires j <= i
    ensures forall v :: v in vs ==> v.0 < v.1 <= i
  {
    AllVisits(i) + VisitsOf(i)[..j]
  }

  /** The visits with `cur == i` complete the pair loop over `i + 1` elements. */
  lemma VisitsUpToNext(i: nat)
    ensures VisitsUpTo(i, i) == AllVisits(i + 1)
  {
    assert VisitsOf(i)[..i] == VisitsOf(i);
  }

  /** Visiting one more pair of the loop with `cur == i`. */
  lemma VisitsUpToStep(i: nat, j: nat)
    requires j < i
    ensures VisitsUpTo(i, j + 1) == VisitsUpTo(i, j) + [(j, i)]
  {
    assert VisitsOf(i)[..j + 1] == VisitsOf(i)[..j] + [(j, i)];
  }

  /** Visiting one more pair unfolds `CollideAll` once. */
  lemma CollideAllStep(root: real -> real, es: seq<Entity>, i: nat, j: nat)
    requires IsRoot(root) && j < i < |es|
    ensures CollideAll(root, es, VisitsUpTo(i, j + 1)) == CollideAt(root, CollideAll(root, es, VisitsUpTo(i, j)), (j, i))
  {
    VisitsUpToStep(i, j);
    var vs := VisitsUpTo(i, j);
    assert (vs + [(j, i)])[..|vs|] == vs;
  }

  /** Visiting one more pair unfolds `ClashAll` once. */
  lemma ClashAllStep(root: real -> real, es: seq<Entity>, i: nat, j: nat)
    requires IsRoot(root) && j < i < |es|
    ensures ClashAll(root, es, VisitsUpTo(i, j + 1)) == ClashAt(root, ClashAll(root, es, VisitsUpTo(i, j)), (j, i))
  {
    VisitsUpToStep(i, j);
    var vs := VisitsUpTo(i, j);
    assert (vs + [(j, i)])[..|vs|] == vs;
  }

  /** The start of the visits with `cur == i`. */
  lemma VisitsUpToFirst(i: nat)
    ensures VisitsUpTo(i, 0) == AllVisits(i)
  {
    assert VisitsOf(i)[..0] == [];
  }

  /**
   * The player-collide loop of `update`: for every player `cur` in order,
   * `collide(prev, cur)` with every earlier `prev`; the bodies end as
   * `CollideAll` says, and nothing else about a player changes.
   */
  method CollideEach(root: real -> real, ps: seq<Player>)
    requires IsRoot(root) && Distinct(ps)
    modifies ps`entity
    ensures Bodies(ps) == CollideAll(root, old(Bodies(ps)), AllVisits(|ps|))
  {
    ghost var es := Bodies(ps);
    ghost var cur := es;
    for i := 0 to |ps|
      invariant |cur| == |ps| && forall k :: 0 <= k < |ps| ==> ps[k].entity == cur[k]
      invariant cur == CollideAll(root, es, AllVisits(i))
    {
      VisitsUpToFirst(i);
      for j := 0 to i
        invariant |cur| == |ps| && forall k :: 0 <= k < |ps| ==> ps[k].entity == cur[k]
        invariant cur == CollideAll(root, es, VisitsUpTo(i, j))
      {
        CollidePair(root, ps, j, i, cur);
        CollideAllStep(root, es, i, j);
        cur := CollideAt(root, cur, (j, i));
      }
      VisitsUpToNext(i);
    }
    assert Bodies(ps) == cur;
  }

  /** One visit of the player-collide loop: `collide(prev, cur)` for the players `prev` and `cur`. */
  method CollidePair(root: real -> real, ps: seq<Player>, prev: nat, cur: nat, ghost es: seq<Entity>)
    requires IsRoot(root) && Distinct(ps) && prev < cur < |ps|
    requires |es| == |ps| && forall k :: 0 <= k < |ps| ==> ps[k].entity == es[k]
    modifies ps`entity
    ensures forall k :: 0 <= k < |ps| ==> ps[k].entity == CollideAt(root, es, (prev, cur))[k]
  {
    var c := Collide(root, ps[prev].entity, ps[cur].entity);
    ps[prev].entity := c.a;
    ps[cur].entity := c.b;
  }

  /**
   * The projectile-to-projectile loop of `update`: for every projectile
   * `cur` in order, `cur.hit(prev, 1.0)` with every earlier `prev`; the
   * bodies end as `ClashAll` says.
   */
  method ClashEach(root: real -> real, qs: seq<Projectile>)
    requires IsRoot(root) && Distinct(qs)
    modifies qs`entity
    ensures Shots(qs) == ClashAll(root, old(Shots(qs)), AllVisits(|qs|))
  {
    ghost var es := Shots(qs);
    ghost var cur := es;
    for i := 0 to |qs|
      invariant |cur| == |qs| && forall k :: 0 <= k < |qs| ==> qs[k].entity == cur[k]
      invariant cur == ClashAll(root, es, AllVisits(i))
    {
      VisitsUpToFirst(i);
      for j := 0 to i
        invariant |cur| == |qs| && forall k :: 0 <= k < |qs| ==> qs[k].entity == cur[k]
        invariant cur == ClashAll(root, es, VisitsUpTo(i, j))
      {
        ClashPair(root, qs, j, i, cur);
        ClashAllStep(root, es, i, j);
        cur := ClashAt(root, cur, (j, i));
      }
      VisitsUpToNext(i);
    }
    assert Shots(qs) == cur;
  }

  /** One visit of the projectile-to-projectile loop: `cur.hit(prev, 1.0)` for the projectiles `prev` and `cur`. */
  method ClashPair(root: real -> real, qs: seq<Projectile>, prev: nat, cur: nat, ghost es: seq<Entity>)
    requires IsRoot(root) && Distinct(qs) && prev < cur < |qs|
    requires |es| == |qs| && forall k :: 0 <= k < |qs| ==> qs[k].entity == es[k]
    modifies qs`entity
    ensures forall k :: 0 <= k < |qs| ==> qs[k].entity == ClashAt(root, es, (prev, cur))[k]
  {
    var h := Hit(root, qs[cur].entity, qs[prev].entity, 1.0);
    qs[cur].entity := h.attacker;
    qs[prev].entity := h.target;
  }

  /**
   * The projectile-to-player loop of `update`: every projectile in order
   * hits, with strength `k`, every player whose owner id differs from its
   * own, and is marked as having hit when one of its hits lands; bodies
   * end as `BarrageUpTo` says.
   */
  method BarrageEach(root: real -> real, qs: seq<Projectile>, ps: seq<Player>, k: real)
    requires IsRoot(root) && 0.0 < k && Distinct(qs) && Distinct(ps)
    modifies qs`entity, qs`actuallyHit, ps`entity
    ensures var b := BarrageUpTo(root, old(Shots(qs)), old(Bodies(ps)), k, |qs|);
      Shots(qs) == b.shots && Bodies(ps) == b.bodies &&
      forall i :: 0 <= i < |qs| ==> qs[i].actuallyHit == (old(qs[i].actuallyHit) || b.hits[i])
  {
    ghost var qs0, ps0 := Shots(qs), Bodies(ps);
    ghost var h0 := seq(|qs|, a reads qs requires 0 <= a < |qs| => qs[a].actuallyHit);
    for i := 0 to |qs|
      invariant Fired(root, qs, ps, k, i, qs0, ps0, h0)
    {
      Salvo(root, qs, ps, k, i, qs0, ps0, h0);
    }
    ghost var b := BarrageUpTo(root, qs0, ps0, k, |qs|);
    assert Shots(qs) == b.shots;
    assert Bodies(ps) == b.bodies;
  }

  /**
   * The projectile-to-player pass has run for the first `i` projectiles,
   * from projectile bodies `qs0`, player bodies `ps0` and hit marks `h0`.
   */
  ghost predicate Fired(root: real -> real, qs: seq<Projectile>, ps: seq<Player>, k: real, i: nat,
                        qs0: seq<Entity>, ps0: seq<Entity>, h0: seq<bool>)
    reads qs, ps
  {
    IsRoot(root) && 0.0 < k && i <= |qs| == |qs0| == |h0| && |ps| == |ps0| &&
    var b := BarrageUpTo(root, qs0, ps0, k, i);
    (forall j :: 0 <= j < |ps| ==> ps[j].entity == b.bodies[j]) &&
    (forall a :: 0 <= a < i ==> qs[a].entity == b.shots[a] && qs[a].actuallyHit == (h0[a] || b.hits[a])) &&
    (forall a :: i <= a < |qs| ==> qs[a].entity == qs0[a] && qs[a].actuallyHit == h0[a])
  }

  /** One round of the projectile-to-player pass: projectile `i` hits every player, as `Volley` says. */
  method Salvo(root: real -> real, qs: seq<Projectile>, ps: seq<Player>, k: real, i: nat,
               ghost qs0: seq<Entity>, ghost ps0: seq<Entity>, ghost h0: seq<bool>)
    requires Distinct(qs) && Distinct(ps) && i < |qs| && Fired(root, qs, ps, k, i, qs0, ps0, h0)
    modifies qs`entity, qs`actuallyHit, ps`entity
    ensures Fired(root, qs, ps, k, i + 1, qs0, ps0, h0)
  {
    ghost var b := BarrageUpTo(root, qs0, ps0, k, i);
    Volley(root, qs[i], ps, k, qs0[i], b.bodies);
  }

  /**
   * The inner loop of the projectile-to-player pass for one projectile `q`
   * over players whose bodies are `es`: its body and the players' end as
   * `VolleyUpTo` says, and it is marked when a hit lands.
   */
  method Volley(root: real -> real, q: Projectile, ps: seq<Player>, k: real, ghost e0: Entity, ghost es: seq<Entity>)
    requires IsRoot(root) && 0.0 < k && Distinct(ps) && q.entity == e0
    requires |es| == |ps| && forall j :: 0 <= j < |ps| ==> ps[j].entity == es[j]
    modifies q`entity, q`actuallyHit, ps`entity
    ensures q.entity == VolleyUpTo(root, e0, es, k, |ps|).shot
    ensures q.actuallyHit == (old(q.actuallyHit) || VolleyUpTo(root, e0, es, k, |ps|).hit)
    ensures forall j :: 0 <= j < |ps| ==> ps[j].entity == VolleyUpTo(root, e0, es, k, |ps|).bodies[j]
  {
    for j := 0 to |ps|
      invariant var v := VolleyUpTo(root, e0, es, k, j);
        q.entity == v.shot && q.actuallyHit == (old(q.actuallyHit) || v.hit) &&
        forall a :: 0 <= a < |ps| ==> ps[a].entity == v.bodies[a]
    {
      Strike(root, q, ps, j, k, e0, es);
    }
  }

  /**
   * One step of the inner loop of the projectile-to-player pass: `q` hits
   * player `j` when their owner ids differ, and is marked when the hit
   * lands; the result is one more step of `VolleyUpTo`.
   */
  method Strike(root: real -> real, q: Projectile, ps: seq<Player>, j: nat, k: real, ghost e0: Entity, ghost es: seq<Entity>)
    requires IsRoot(root) && 0.0 < k && Distinct(ps) && j < |ps| == |es|
    requires var v := VolleyUpTo(root, e0, es, k, j);
      q.entity == v.shot && (v.hit ==> q.actuallyHit) && forall a :: 0 <= a < |ps| ==> ps[a].entity == v.bodies[a]
    modifies q`entity, q`actuallyHit, ps`entity
    ensures var w := VolleyUpTo(root, e0, es, k, j + 1);
      q.entity == w.shot && q.actuallyHit == (old(q.actuallyHit) || w.hit) &&
      forall a :: 0 <= a < |ps| ==> ps[a].entity == w.bodies[a]
  {
    if q.entity.ownerId != ps[j].entity.ownerId {
      var h := Hit(root, q.entity, ps[j].entity, k);
      q.entity := h.attacker;
      ps[j].entity := h.target;
      if h.hit {
        q.actuallyHit := true;
      }
    }
  }

  /** The food clock loop of `update`: every food runs `Food::update`. */
  method AgeEach(fs: seq<Food>, dt: real)
    requires Distinct(fs) && 0.0 <= dt
    requires forall f :: f in fs ==> f.Valid()
    modifies fs`time, fs`parts
    ensures forall k :: 0 <= k < |fs| ==>
      fs[k].entity == old(fs[k].entity) && fs[k].Valid() &&
      fs[k].time == Min(old(fs[k].time) + dt * 3.0, 1.0)
  {
    for i := 0 to |fs|
      invariant forall k :: 0 <= k < i ==>
        fs[k].entity == old(fs[k].entity) && fs[k].Valid() &&
        fs[k].time == Min(old(fs[k].time) + dt * 3.0, 1.0)
      invariant forall k :: i <= k < |fs| ==> fs[k].entity == old(fs[k].entity) && fs[k].time == old(fs[k].time)
    {
      assert fs[i] in fs;
      fs[i].Update(dt);
    }
  }

  /**
   * The feeding loop of `update`: every food in order is consumed, with
   * factor `FoodK`, by every player in order; bodies end as `FeastUpTo`
   * says.
   */
  method FeastEach(root: real -> real, fs: seq<Food>, ps: seq<Player>)
    requires IsRoot(root) && Distinct(fs) && Distinct(ps)
    modifies fs`entity, ps`entity
    ensures var r := FeastUpTo(root, old(Morsels(fs)), old(Bodies(ps)), |fs|);
      Morsels(fs) == r.foods && Bodies(ps) == r.bodies
  {
    ghost var fs0, ps0 := Morsels(fs), Bodies(ps);
    for i := 0 to |fs|
      invariant Fed(root, fs, ps, i, fs0, ps0)
    {
      Course(root, fs, ps, i, fs0, ps0);
    }
    ghost var r := FeastUpTo(root, fs0, ps0, |fs|);
    assert Morsels(fs) == r.foods;
    assert Bodies(ps) == r.bodies;
  }

  /** The feeding pass has run for the first `i` foods, from food bodies `fs0` and player bodies `ps0`. */
  ghost predicate Fed(root: real -> real, fs: seq<Food>, ps: seq<Player>, i: nat, fs0: seq<Entity>, ps0: seq<Entity>)
    reads fs, ps
  {
    IsRoot(root) && i <= |fs| == |fs0| && |ps| == |ps0| &&
    var r := FeastUpTo(root, fs0, ps0, i);
    (forall j :: 0 <= j < |ps| ==> ps[j].entity == r.bodies[j]) &&
    (forall a :: 0 <= a < i ==> fs[a].entity == r.foods[a]) &&
    (forall a :: i <= a < |fs| ==> fs[a].entity == fs0[a])
  }

  /** One round of the feeding pass: food `i` is offered to every player, as `Feed` says. */
  method Course(root: real -> real, fs: seq<Food>, ps: seq<Player>, i: nat, ghost fs0: seq<Entity>, ghost ps0: seq<Entity>)
    requires Distinct(fs) && Distinct(ps) && i < |fs| && Fed(root, fs, ps, i, fs0, ps0)
    modifies fs`entity, ps`entity
    ensures Fed(root, fs, ps, i + 1, fs0, ps0)
  {
    ghost var r := FeastUpTo(root, fs0, ps0, i);
    Feed(root, fs[i], ps, fs0[i], r.bodies);
  }

  /**
   * The inner loop of the feeding pass for one food `f` over players whose
   * bodies are `es`: `player.consume(f, FOOD_K)` for every player.
   */
  method Feed(root: real -> real, f: Food, ps: seq<Player>, ghost f0: Entity, ghost es: seq<Entity>)
    requires IsRoot(root) && Distinct(ps) && f.entity == f0
    requires |es| == |ps| && forall j :: 0 <= j < |ps| ==> ps[j].entity == es[j]
    modifies f`entity, ps`entity
    ensures f.entity == FeedUpTo(root, f0, es, |ps|).food
    ensures forall j :: 0 <= j < |ps| ==> ps[j].entity == FeedUpTo(root, f0, es, |ps|).bodies[j]
  {
    for j := 0 to |ps|
      invariant Eaten(root, f, ps, j, f0, es)
    {
      Bite(root, f, ps, j, f0, es);
    }
  }

  /** The inner feeding loop has run for the first `j` players. */
  ghost predicate Eaten(root: real -> real, f: Food, ps: seq<Player>, j: nat, f0: Entity, es: seq<Entity>)
    reads f, ps
  {
    IsRoot(root) && j <= |ps| == |es| &&
    var m := FeedUpTo(root, f0, es, j);
    f.entity == m.food && forall a :: 0 <= a < |ps| ==> ps[a].entity == m.bodies[a]
  }

  /** One step of the inner feeding loop: player `j` consumes from `f`. */
  method Bite(root: real -> real, f: Food, ps: seq<Player>, j: nat, ghost f0: Entity, ghost es: seq<Entity>)
    requires Distinct(ps) && j < |ps| && Eaten(root, f, ps, j, f0, es)
    modifies f`entity, ps`entity
    ensures Eaten(root, f, ps, j + 1, f0, es)
  {
    var c := Consume(root, ps[j].entity, f.entity, FoodK);
    ps[j].entity := c.a;
    f.entity := c.b;
  }
}
