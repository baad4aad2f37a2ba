/**
 * The bot controller (src/bot.rs): a stateless rule that steers towards the
 * nearest food and aims at, or releases a shot towards, the nearest player
 * with another id. "Nearest" is toroidal distance and ties go to the
 * earlier entry, as with `Iterator::min_by`.
 */
module Bots {
  import opened Wrappers
  import opened Vectors
  import opened Torus
  import opened Projectiles
  import opened Controls

  const ShotHitSize: real := 0.3
  const MinSize: real := 0.7

  /** The index of the first player with the given id (`find`). */
  function Find(ps: seq<PlayerView>, id: nat): (r: Option<nat>)
    ensures r.Some? ==> r.value < |ps| && ps[r.value].id == id
    ensures r.Some? ==> forall j :: 0 <= j < r.value ==> ps[j].id != id
    ensures r.None? <==> forall j :: 0 <= j < |ps| ==> ps[j].id != id
  {
    if ps == [] then None
    else if ps[0].id == id then Some(0)
    else match Find(ps[1..], id)
      case None => None
      case Some(i) => Some(i + 1)
  }

  /** The players whose id differs from `id`, in order (`filter`). */
  function Others(ps: seq<PlayerView>, id: nat): (r: seq<PlayerView>)
    ensures |r| <= |ps|
    ensures forall p :: p in r ==> p in ps && p.id != id
    ensures forall p :: p in ps && p.id != id ==> p in r
  {
    if ps == [] then []
    else if ps[0].id != id then [ps[0]] + Others(ps[1..], id)
    else Others(ps[1..], id)
  }

  /**
   * The fold behind `min_by`: `best` is the first nearest of `targets[..k]`,
   * and the scan goes on from `k`, replacing `best` only by a strictly
   * nearer target.
   */
  function NearestFrom(root: real -> real, from: Vec2, targets: seq<Vec2>, best: nat, k: nat): (i: nat)
    requires IsRoot(root)
    requires best < k <= |targets|
    requires forall j :: 0 <= j < k ==> Distance(root, from, targets[best]) <= Distance(root, from, targets[j])
    requires forall j :: 0 <= j < best ==> Distance(root, from, targets[best]) < Distance(root, from, targets[j])
    ensures i < |targets|
    ensures forall j :: 0 <= j < |targets| ==> Distance(root, from, targets[i]) <= Distance(root, from, targets[j])
    ensures forall j :: 0 <= j < i ==> Distance(root, from, targets[i]) < Distance(root, from, targets[j])
    decreases |targets| - k
  {
    if k == |targets| then best
    else if Distance(root, from, targets[best]) > Distance(root, from, targets[k]) then
      NearestFrom(root, from, targets, k, k + 1)
    else
      NearestFrom(root, from, targets, best, k + 1)
  }

  /** `min_by` on distance from `from`: the index of the first nearest target. */
  function Nearest(root: real -> real, from: Vec2, targets: seq<Vec2>): (i: nat)
    requires IsRoot(root) && |targets| > 0
    ensures i < |targets|
    ensures forall j :: 0 <= j < |targets| ==> Distance(root, from, targets[i]) <= Distance(root, from, targets[j])
    ensures forall j :: 0 <= j < i ==> Distance(root, from, targets[i]) < Distance(root, from, targets[j])
  {
    NearestFrom(root, from, targets, 0, 1)
  }

  /** The positions of a list of players. */
  function Positions(ps: seq<PlayerView>): (r: seq<Vec2>)
    ensures |r| == |ps| && forall i :: 0 <= i < |ps| ==> r[i] == ps[i].pos
  {
    seq(|ps|, i requires 0 <= i < |ps| => ps[i].pos)
  }

  /** How long a projectile at `from` takes to reach `to` at launch speed. */
  function HitTime(root: real -> real, from: Vec2, to: Vec2): (t: real)
    requires IsRoot(root)
    ensures 0.0 <= t
  {
    LenNonNegative(root, DeltaPos(from, to));
    Distance(root, from, to) / ProjectileSpeed
  }

  /**
   * The shot decision against enemy `e`. Holding a projectile, the bot
   * releases it (no aim) once it would still be bigger than `ShotHitSize`
   * on arrival, and otherwise keeps aiming where `e` will be by then.
   * Not holding one, it starts aiming at `e` unless it is smaller than
   * `MinSize`.
   */
  function ShootRule(root: real -> real, me: PlayerView, e: PlayerView): (s: Option<Vec2>)
    requires IsRoot(root)
    ensures me.projectile.Some? ==>
      var p := me.projectile.value;
      var t := HitTime(root, p.pos, e.pos);
      (s.None? <==> p.size - ProjectileDeathSpeed * t > ShotHitSize) &&
      (s.Some? ==> s.value == e.pos.Plus(e.vel.Scale(t)))
    ensures me.projectile.None? ==> s == (if me.size < MinSize then None else Some(e.pos))
  {
    match me.projectile
    case Some(p) =>
      var hitTime := HitTime(root, p.pos, e.pos);
      if p.size - ProjectileDeathSpeed * hitTime > ShotHitSize then None
      else Some(e.pos.Plus(e.vel.Scale(hitTime)))
    case None =>
      if me.size < MinSize then None else Some(e.pos)
  }

  /**
   * `BotController::act`: steer by raw difference towards a nearest food
   * (towards the origin when there is none); with no other player, do not
   * shoot, and otherwise apply `ShootRule` to a nearest player with another
   * id, whatever its team. The bot's own id must be present.
   */
  function BotAct(root: real -> real, selfId: nat, w: WorldView): (act: Action)
    requires IsRoot(root)
    requires Find(w.players, selfId).Some?
    ensures var me := w.players[Find(w.players, selfId).value];
      (w.food == [] ==> act.targetVel == Zero.Minus(me.pos)) &&
      (w.food != [] ==>
        exists i :: 0 <= i < |w.food| && act.targetVel == w.food[i].Minus(me.pos) &&
          forall j :: 0 <= j < |w.food| ==> Distance(root, me.pos, w.food[i]) <= Distance(root, me.pos, w.food[j]))
    ensures (forall j :: 0 <= j < |w.players| ==> w.players[j].id == selfId) ==> act.shoot == None
    ensures var me := w.players[Find(w.players, selfId).value];
      (exists j :: 0 <= j < |w.players| && w.players[j].id != selfId) ==>
      exists e :: e in w.players && e.id != selfId &&
        (forall q :: q in w.players && q.id != selfId ==> Distance(root, me.pos, e.pos) <= Distance(root, me.pos, q.pos)) &&
        act.shoot == ShootRule(root, me, e)
  {
    var me := w.players[Find(w.players, selfId).value];
    var target := if w.food == [] then Zero else w.food[Nearest(root, me.pos, w.food)];
    var enemies := Others(w.players, selfId);
    if enemies == [] then
      NoOthers(w.players, selfId);
      Action(target.Minus(me.pos), None)
    else
      var k := Nearest(root, me.pos, Positions(enemies));
      NearestOther(root, me.pos, w.players, selfId, k);
      Action(target.Minus(me.pos), ShootRule(root, me, enemies[k]))
  }

  /** With no player left by the filter, every player has the given id. */
  lemma NoOthers(ps: seq<PlayerView>, id: nat)
    requires Others(ps, id) == []
    ensures forall j :: 0 <= j < |ps| ==> ps[j].id == id
  {
    assert forall j :: 0 <= j < |ps| && ps[j].id != id ==> ps[j] in Others(ps, id);
  }

  /** A nearest entry of the filtered list is nearest among all players with another id. */
  lemma NearestOther(root: real -> real, from: Vec2, ps: seq<PlayerView>, id: nat, k: nat)
    requires IsRoot(root)
    requires k < |Others(ps, id)|
    requires forall j :: 0 <= j < |Others(ps, id)| ==>
      Distance(root, from, Positions(Others(ps, id))[k]) <= Distance(root, from, Positions(Others(ps, id))[j])
    ensures forall q :: q in ps && q.id != id ==> Distance(root, from, Others(ps, id)[k].pos) <= Distance(root, from, q.pos)
  {
    var enemies := Others(ps, id);
    forall q | q in ps && q.id != id
      ensures Distance(root, from, enemies[k].pos) <= Distance(root, from, q.pos)
    {
      var j :| 0 <= j < |enemies| && enemies[j] == q;
      assert Positions(enemies)[j] == q.pos;
    }
  }
}
