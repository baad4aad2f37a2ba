/**
 * A player (src/player/mod.rs): a body steered by a controller, with at
 * most one projectile that it charges while aiming and releases when it
 * stops aiming.
 */
module Players {
  import opened Wrappers
  import opened Vectors
  import opened Torus
  import opened Entities
  import opened Projectiles
  import opened Controls
  import opened Bots

  const InitialSize: real := 1.0
  const MaxSpeed: real := 8.0
  const MaxAimingSpeed: real := 4.0
  const Acceleration: real := 15.0
  const ProjectileMassGainSpeed: real := 0.3
  const ProjectileCostSpeed: real := 0.1

  /** Who decides a player's actions. */
  datatype Controller = Keyboard | Bot

  /** The counter behind player ids (`NEXT_ID`): ids start at 1 and are never reused. */
  class IdSource {
    var next: nat

    constructor()
      ensures next == 1
    {
      next := 1;
    }

    /** `fetch_add(1)`: hand out the current id and move past it. */
    method Take() returns (id: nat)
      modifies this
      ensures id == old(next) && next == old(next) + 1
    {
      id := next;
      next := next + 1;
    }
  }

  /**
   * The velocity a player steers towards: the action's target clamped to
   * unit length and scaled to `MaxSpeed`, then clamped to `MaxAimingSpeed`
   * while aiming.
   */
  function TargetVelocity(root: real -> real, act: Action): (v: Vec2)
    requires IsRoot(root)
    ensures Len(root, v) <= MaxSpeed
    ensures act.shoot.Some? ==> Len(root, v) <= MaxAimingSpeed
    ensures act.shoot.None? && Len(root, act.targetVel) <= 1.0 ==> v == act.targetVel.Scale(MaxSpeed)
  {
    var c := Clamp(root, act.targetVel, 1.0);
    LenScale(root, c, MaxSpeed);
    var v := c.Scale(MaxSpeed);
    if act.shoot.Some? then Clamp(root, v, MaxAimingSpeed) else v
  }

  /** What the player's controller returns (`Controller::act`). */
  function ControllerAction(root: real -> real, c: Controller, id: nat, view: WorldView, keys: Keys): Action
    requires IsRoot(root)
    requires c.Bot? ==> Find(view.players, id).Some?
  {
    match c
    case Keyboard => KeyboardAction(keys)
    case Bot => BotAct(root, id, view)
  }

  class Player {
    var entity: Entity
    var prevSize: real
    const teamId: nat
    const controller: Controller
    var projectile: Option<Projectile>
    var action: Action
    var time: real

    /** The projectile object the player holds, if any. */
    function Held(): set<object>
      reads this
    {
      if projectile.Some? then {projectile.value} else {}
    }

    /**
     * `Player::new`: a body of `InitialSize` at rest at `pos`, with the
     * next id of the counter.
     */
    constructor(ids: IdSource, pos: Vec2, color: Color, controller: Controller, teamId: nat)
      modifies ids
      ensures entity == Entity(Some(old(ids.next)), color, pos, Zero, InitialSize)
      ensures ids.next == old(ids.next) + 1
      ensures prevSize == InitialSize && this.teamId == teamId && this.controller == controller
      ensures projectile == None && action == Idle && time == 0.0
    {
      var id := ids.Take();
      entity := Entity(Some(id), color, pos, Zero, InitialSize);
      prevSize := InitialSize;
      this.teamId := teamId;
      this.controller := controller;
      projectile := None;
      action := Idle;
      time := 0.0;
    }

    /**
     * `act`: store what the controller returns for this player's id. A bot
     * needs its own id among the players it sees.
     */
    method Act(root: real -> real, view: WorldView, keys: Keys)
      requires IsRoot(root) && entity.ownerId.Some?
      requires controller.Bot? ==> Find(view.players, entity.ownerId.value).Some?
      modifies this`action
      ensures action == ControllerAction(root, controller, entity.ownerId.value, view, keys)
    {
      match controller
      case Keyboard =>
        action := KeyboardAct(keys);
      case Bot =>
        action := BotAct(root, entity.ownerId.value, view);
    }

    /**
     * `update`: accelerate towards the target velocity and move (`Steered`),
     * age the held projectile, then either charge the projectile at the aim
     * point, creating it if needed, at the player's expense (`Aimed`), or
     * release whatever projectile is held.
     */
    method Update(root: real -> real, dt: real) returns (released: Option<Projectile>, ghost emitted: seq<Spark>)
      requires IsRoot(root)
      modifies this, Held()
      ensures prevSize == old(entity.size) && time == old(time) + dt && action == old(action)
      ensures entity.ownerId == old(entity.ownerId)
      ensures Steered(root, action, dt, old(entity), entity.(size := old(entity.size)))
      // Aiming: a projectile is held, charged and placed between the player and the target.
      ensures action.shoot.Some? ==> released == None && projectile.Some?
      ensures action.shoot.Some? && old(projectile).Some? ==>
        projectile == old(projectile) &&
        projectile.value.entity.ownerId == old(projectile.value.entity.ownerId) &&
        projectile.value.entity.color == old(projectile.value.entity.color) &&
        projectile.value.actuallyHit == old(projectile.value.actuallyHit)
      ensures action.shoot.Some? && old(projectile).None? ==>
        fresh(projectile.value) &&
        projectile.value.entity.ownerId == entity.ownerId &&
        projectile.value.entity.color == Mix(entity.color, White) &&
        projectile.value.sparks == [] && !projectile.value.actuallyHit
      ensures action.shoot.Some? ==>
        Aimed(root, dt, action.shoot.value, entity.(size := old(entity.size)),
              if old(projectile).Some? then old(projectile.value.entity).Mass() else 0.0,
              entity, projectile.value.entity)
      // Not aiming: whatever was held is released.
      ensures action.shoot.None? ==> released == old(projectile) && projectile == None
      ensures action.shoot.None? ==> entity.size == old(entity.size)
      ensures action.shoot.None? && released.Some? ==>
        released.value.entity == old(released.value.entity).Update(dt) &&
        released.value.actuallyHit == old(released.value.actuallyHit)
      // Either way the held projectile's sparks are aged as its own `update` says.
      ensures old(projectile).None? ==> emitted == []
      ensures old(projectile).Some? ==>
        old(projectile).value.sparks == Survivors(Aged(old(projectile.value.sparks) + emitted, dt))
      ensures projectile.Some? ==> forall s :: s in projectile.value.sparks ==> s.age < SparkLife
    {
      Steer(root, dt);
      ghost var moved := entity;
      emitted := AgeHeld(dt);
      match action.shoot
      case Some(target) =>
        Aim(root, dt, target);
        assert moved == entity.(size := old(entity.size));
        released := None;
      case None =>
        released := projectile;
        projectile := None;
    }

    /** The second part of `update`: the held projectile's own `update`. */
    method AgeHeld(dt: real) returns (ghost emitted: seq<Spark>)
      modifies Held()
      ensures projectile.None? ==> emitted == []
      ensures projectile.Some? ==>
        projectile.value.entity == old(projectile.value.entity).Update(dt) &&
        projectile.value.entity.Mass() == old(projectile.value.entity).Mass() &&
        projectile.value.actuallyHit == old(projectile.value.actuallyHit) &&
        projectile.value.sparks == Survivors(Aged(old(projectile.value.sparks) + emitted, dt)) &&
        (forall s :: s in emitted ==> IsEmission(s, projectile.value.entity)) &&
        forall s :: s in projectile.value.sparks ==> s.age < SparkLife
    {
      emitted := [];
      if projectile.Some? {
        emitted := projectile.value.Update(dt);
        assert projectile.value.entity.Mass() == old(projectile.value.entity).Mass() by {
          assert projectile.value.entity.size == old(projectile.value.entity).size;
        }
      }
    }

    /** The first part of `update`: accelerate, then move the body. */
    method Steer(root: real -> real, dt: real)
      requires IsRoot(root)
      modifies this
      ensures prevSize == old(entity.size) && time == old(time) + dt
      ensures action == old(action) && projectile == old(projectile)
      ensures Steered(root, action, dt, old(entity), entity)
    {
      prevSize := entity.size;
      time := time + dt;
      var deltaVel := TargetVelocity(root, action).Minus(entity.vel);
      entity := entity.(vel := entity.vel.Plus(Clamp(root, deltaVel, Acceleration * dt)));
      entity := entity.Update(dt);
    }

    /**
     * The aiming branch of `update`: make sure a projectile is held, put it
     * between the player and the target, aim it at the target and move
     * mass from the player into it.
     */
    method Aim(root: real -> real, dt: real, target: Vec2)
      requires IsRoot(root)
      modifies this, Held()
      ensures projectile.Some? && prevSize == old(prevSize) && time == old(time) && action == old(action)
      ensures old(projectile).Some? ==>
        projectile == old(projectile) && projectile.value.sparks == old(projectile.value.sparks) &&
        projectile.value.entity.ownerId == old(projectile.value.entity.ownerId) &&
        projectile.value.entity.color == old(projectile.value.entity.color) &&
        projectile.value.actuallyHit == old(projectile.value.actuallyHit)
      ensures old(projectile).None? ==>
        fresh(projectile.value) &&
        projectile.value.entity.ownerId == entity.ownerId &&
        projectile.value.entity.color == Mix(entity.color, White) &&
        projectile.value.sparks == [] && !projectile.value.actuallyHit
      ensures Aimed(root, dt, target, old(entity),
                    if old(projectile).Some? then old(projectile.value.entity).Mass() else 0.0,
                    entity, projectile.value.entity)
    {
      ghost var held := if projectile.Some? then projectile.value.entity.Mass() else 0.0;
      if projectile.None? {
        var p := new Projectile(entity.ownerId, Mix(entity.color, White));
        projectile := Some(p);
        assert p.entity.Mass() == held by {
          assert p.entity.size == 0.0;
        }
      }
      var p := projectile.value;
      var d := DeltaPos(entity.pos, target);
      var offset := Clamp(root, d, entity.size);
      ghost var e0 := p.entity;
      assert e0.Mass() == held;
      p.entity := p.entity.(pos := entity.pos.Plus(offset), vel := Unit(root, d).Scale(ProjectileSpeed));
      assert p.entity.Mass() == held by {
        assert p.entity.size == e0.size;
      }
      p.entity := p.entity.AddMass(root, ProjectileMassGainSpeed * dt);
      entity := entity.AddMass(root, -ProjectileCostSpeed * dt);
    }
  }

  /**
   * The movement part of `update`: `e` is `e0` after its velocity moved
   * towards `TargetVelocity(act)` by at most `Acceleration * dt` and its
   * body moved by the new velocity for `dt`.
   */
  ghost predicate Steered(root: real -> real, act: Action, dt: real, e0: Entity, e: Entity)
    requires IsRoot(root)
  {
    e == e0.(vel := e.vel, pos := e.pos) &&
    e.vel == e0.vel.Plus(Clamp(root, TargetVelocity(root, act).Minus(e0.vel), Acceleration * dt)) &&
    e.pos == Normalized(e0.pos.Plus(e.vel.Scale(dt)))
  }

  /** Per tick, the velocity changes by a vector no longer than `Acceleration * dt`. */
  lemma SteeringBoundsAcceleration(root: real -> real, act: Action, dt: real, e0: Entity, e: Entity)
    requires IsRoot(root) && Steered(root, act, dt, e0, e)
    ensures Len(root, e.vel.Minus(e0.vel)) <= Abs(Acceleration * dt)
    ensures e.size == e0.size && e.ownerId == e0.ownerId && e.color == e0.color
  {
    var step := Clamp(root, TargetVelocity(root, act).Minus(e0.vel), Acceleration * dt);
    assert e.vel.Minus(e0.vel) == step;
  }

  /**
   * Steering towards a target the player already moves at leaves the
   * velocity alone: the player cruises at its target speed.
   */
  lemma SteeringAtTargetKeepsVelocity(root: real -> real, act: Action, dt: real, e0: Entity, e: Entity)
    requires IsRoot(root) && Steered(root, act, dt, e0, e)
    requires e0.vel == TargetVelocity(root, act) && 0.0 <= dt
    ensures e.vel == e0.vel
  {
    var d := TargetVelocity(root, act).Minus(e0.vel);
    assert d == Zero;
    LenOfZero(root);
    assert Clamp(root, d, Acceleration * dt) == Zero;
  }

  /**
   * The aiming part of `update`, from the steered player `e0` and the held
   * projectile mass `held` (zero for a fresh projectile) to the player `e`
   * and the projectile body `p`: the projectile sits at the player's
   * position plus the toroidal offset to the target clamped to the
   * player's size, flies towards the target at `ProjectileSpeed`, and gains
   * `ProjectileMassGainSpeed * dt` of mass while the player loses
   * `ProjectileCostSpeed * dt`, both clamped at zero.
   */
  ghost predicate Aimed(root: real -> real, dt: real, target: Vec2, e0: Entity, held: real, e: Entity, p: Entity)
    requires IsRoot(root)
  {
    e == e0.(size := e.size) && 0.0 <= e.size && 0.0 <= p.size &&
    e.Mass() == Max(0.0, e0.Mass() - ProjectileCostSpeed * dt) &&
    p.pos == e0.pos.Plus(Clamp(root, DeltaPos(e0.pos, target), e0.size)) &&
    p.vel == Unit(root, DeltaPos(e0.pos, target)).Scale(ProjectileSpeed) &&
    p.Mass() == Max(0.0, held + ProjectileMassGainSpeed * dt)
  }

  /**
   * While aiming, the held projectile sits within the player's size (before
   * the aiming cost) of the player's centre, and the player never gains
   * mass by aiming.
   */
  lemma AimedWithinReach(root: real -> real, dt: real, target: Vec2, e0: Entity, held: real, e: Entity, p: Entity)
    requires IsRoot(root) && Aimed(root, dt, target, e0, held, e, p)
    requires 0.0 <= dt
    ensures Len(root, p.pos.Minus(e.pos)) <= Abs(e0.size)
    ensures e.Mass() <= e0.Mass()
    ensures 0.0 <= held ==> held <= p.Mass()
  {
    var offset := Clamp(root, DeltaPos(e0.pos, target), e0.size);
    assert p.pos.Minus(e.pos) == offset;
  }
}
