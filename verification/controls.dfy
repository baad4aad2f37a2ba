/**
 * What a controller decides each tick (`Action` in src/player/mod.rs), the
 * read-only view of the world a controller decides from, and the keyboard
 * controller (src/player/keyboard.rs) with the window's key and button
 * states passed in as booleans.
 */
module Controls {
  import opened Wrappers
  import opened Vectors

  /** `Player::PROJECTILE_SPEED`: the launch speed of a released projectile. */
  const ProjectileSpeed: real := 25.0

  /** A desired velocity (scaled by the player) and an optional aim point. */
  datatype Action = Action(targetVel: Vec2, shoot: Option<Vec2>)

  /** `Action::default()`. */
  const Idle := Action(Zero, None)

  /** What a controller can see of one player. */
  datatype PlayerView = PlayerView(id: nat, pos: Vec2, vel: Vec2, size: real, projectile: Option<ProjectileView>)

  /** What a controller can see of a held projectile. */
  datatype ProjectileView = ProjectileView(pos: Vec2, size: real)

  /** What a controller can see of the game: the players and the food positions. */
  datatype WorldView = WorldView(players: seq<PlayerView>, food: seq<Vec2>)

  /** The input the keyboard controller polls: W, A, S, D, the left button and the mouse. */
  datatype Keys = Keys(w: bool, a: bool, s: bool, d: bool, left: bool, mouse: Vec2)

  /** The contribution of a pair of opposite keys to one axis. */
  function Axis(plus: bool, minus: bool): (c: real)
    ensures c == 1.0 <==> plus && !minus
    ensures c == -1.0 <==> minus && !plus
    ensures c == 0.0 <==> plus == minus
  {
    (if plus then 1.0 else 0.0) - (if minus then 1.0 else 0.0)
  }

  /**
   * The action the keyboard controller returns: D/A steer x, W/S steer y,
   * and the left button aims at the mouse.
   */
  function KeyboardAction(k: Keys): (act: Action)
    ensures act.targetVel.x in {-1.0, 0.0, 1.0} && act.targetVel.y in {-1.0, 0.0, 1.0}
    ensures k.a && k.d ==> act.targetVel.x == 0.0
    ensures k.w && k.s ==> act.targetVel.y == 0.0
    ensures act.shoot == Some(k.mouse) <==> k.left
    ensures !k.left ==> act.shoot == None
  {
    Action(Vec2(Axis(k.d, k.a), Axis(k.w, k.s)), if k.left then Some(k.mouse) else None)
  }

  /**
   * `KeyboardController::act`: the key checks in source order, each
   * adjusting a local velocity. The player's id and the game are not read.
   */
  method KeyboardAct(k: Keys) returns (act: Action)
    ensures act == KeyboardAction(k)
  {
    var targetVel := Zero;
    if k.w {
      targetVel := targetVel.(y := targetVel.y + 1.0);
    }
    if k.a {
      targetVel := targetVel.(x := targetVel.x - 1.0);
    }
    if k.s {
      targetVel := targetVel.(y := targetVel.y - 1.0);
    }
    if k.d {
      targetVel := targetVel.(x := targetVel.x + 1.0);
    }
    act := Action(targetVel, if k.left then Some(k.mouse) else None);
  }
}
