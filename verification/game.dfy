/**
 * The world and its tick (`Game` in src/main.rs): the players, the flying
 * projectiles and the food, the food-spawn clock, the wave machine and the
 * session counters, and the phases of `update` in the order the source runs
 * them.
 */
module Games {
  import opened Wrappers
  import opened Vectors
  import opened Torus
  import opened Entities
  import opened Projectiles
  import opened Foods
  import opened Controls
  import opened Bots
  import opened Players
  import opened Rounds
  import opened Passes

  const CameraFov: real := 15.0
  /** `Game::START`: how far the local player must travel before the game starts. */
  const StartDistance: real := 5.0
  const MaxFood: nat := 100
  const FoodSizeMin: real := 0.1
  const FoodSizeMax: real := 0.5
  const FoodSpawnMin: real := 0.05
  const FoodSpawnMax: real := 0.1
  const TimeBetweenWaves: real := 120.0
  const WavePause: real := 10.0
  const ProjectileStrength: real := 0.5
  const PlayerDeathSpeed: real := 1.0 / 20.0

  /** The colour of the local player. */
  const LocalColor := Color(0.5, 0.5, 1.0, 1.0)

  /** What a controller sees of one player. */
  function ViewOf(p: Player): (v: PlayerView)
    reads p, p.Held()
    requires p.entity.ownerId.Some?
    ensures v.id == p.entity.ownerId.value && v.pos == p.entity.pos && v.size == p.entity.size
    ensures v.projectile.Some? <==> p.projectile.Some?
  {
    PlayerView(p.entity.ownerId.value, p.entity.pos, p.entity.vel, p.entity.size,
      match p.projectile
      case Some(q) => Some(ProjectileView(q.entity.pos, q.entity.size))
      case None => None)
  }

  /** A world snapshot for the controllers: every player's view and every food's position. */
  function Snapshot(ps: seq<PlayerView>, fs: seq<Food>): (w: WorldView)
    reads fs
    ensures w.players == ps && |w.food| == |fs|
    ensures forall i :: 0 <= i < |fs| ==> w.food[i] == fs[i].entity.pos
  {
    WorldView(ps, seq(|fs|, i reads fs requires 0 <= i < |fs| => fs[i].entity.pos))
  }

  /**
   * Every player of `ps` stores the action its controller chooses for `w`,
   * in which the k-th player view is the k-th player's.
   */
  method ActEach(root: real -> real, ps: seq<Player>, w: WorldView, keys: Keys)
    requires IsRoot(root) && Distinct(ps) && |w.players| == |ps|
    requires forall k :: 0 <= k < |ps| ==> ps[k].entity.ownerId == Some(w.players[k].id)
    modifies ps`action
    ensures forall k :: 0 <= k < |ps| ==>
      ps[k].entity == old(ps[k].entity) && ps[k].projectile == old(ps[k].projectile)
    ensures forall k :: 0 <= k < |ps| ==>
      ps[k].action == ControllerAction(root, ps[k].controller, w.players[k].id, w, keys)
  {
    for i := 0 to |ps|
      invariant forall k :: 0 <= k < |ps| ==>
        ps[k].entity == old(ps[k].entity) && ps[k].projectile == old(ps[k].projectile)
      invariant forall k :: 0 <= k < i ==> ps[k].action == ControllerAction(root, ps[k].controller, w.players[k].id, w, keys)
    {
      var p := ps[i];
      assert Find(w.players, w.players[i].id).Some?;
      p.Act(root, w, keys);
    }
  }

  /**
   * The size of the food a dead player leaves (`INITIAL_SIZE / sqrt(FOOD_K)`):
   * a player that eats all of it gains back the mass of a new player.
   */
  function DeathFoodSize(root: real -> real): (s: real)
    requires IsRoot(root)
    ensures 0.0 < s && FoodK * (s * s) == InitialSize * InitialSize
  {
    var r := root(FoodK);
    RootFacts(root, FoodK);
    assert r != 0.0;
    assert (InitialSize / r) * (InitialSize / r) == (InitialSize * InitialSize) / (r * r);
    InitialSize / r
  }

  /**
   * The projectiles let go of by players whose actions are `acts` and who
   * hold `held`: the held one of every player whose action does not aim, in
   * list order.
   */
  function LetGo(acts: seq<Action>, held: seq<Option<Projectile>>): seq<Projectile>
    requires |acts| == |held|
  {
    if acts == [] then []
    else
      var n := |acts| - 1;
      LetGo(acts[..n], held[..n]) + if acts[n].shoot.None? && held[n].Some? then [held[n].value] else []
  }

  /** The actions of the players of `ps`, in order. */
  function Actions(ps: seq<Player>): (r: seq<Action>)
    reads ps
    ensures |r| == |ps| && forall k :: 0 <= k < |ps| ==> r[k] == ps[k].action
  {
    seq(|ps|, k reads ps requires 0 <= k < |ps| => ps[k].action)
  }

  /** The projectiles the players of `ps` hold, in order. */
  function Holds(ps: seq<Player>): (r: seq<Option<Projectile>>)
    reads ps
    ensures |r| == |ps| && forall k :: 0 <= k < |ps| ==> r[k] == ps[k].projectile
  {
    seq(|ps|, k reads ps requires 0 <= k < |ps| => ps[k].projectile)
  }

  /** The projectiles the players of `ps` let go of in `update`. */
  function Releases(ps: seq<Player>): seq<Projectile>
    reads ps
  {
    LetGo(Actions(ps), Holds(ps))
  }

  /**
   * What the second loop of `update` starts from: the size of a death food,
   * whether the local player is alive, the players' actions, held
   * projectiles and bodies, the flying projectiles, the food and the kill
   * count.
   */
  datatype Before = Before(size: real, alive: bool, acts: seq<Action>, held: seq<Option<Projectile>>,
                           bodies: seq<Entity>, projectiles: seq<Projectile>, food: seq<Food>, kills: nat)

  /** The second loop of `update` part way: where it started, and the bodies of the players it has updated. */
  datatype Round = Round(from: Before, done: seq<Entity>)

  /** The death food lying at each of `graves`, of size `size`. */
  function Remains(graves: seq<Vec2>, size: real): (r: seq<Entity>)
    ensures |r| == |graves|
  {
    seq(|graves|, j requires 0 <= j < |graves| => Entity(None, Green, graves[j], Zero, size))
  }

  /** The positions of the bodies of `es` that have no size left, in order. */
  function Graves(es: seq<Entity>): seq<Vec2> {
    if es == [] then []
    else
      var e := es[|es| - 1];
      Graves(es[..|es| - 1]) + if e.size <= 0.0 then [e.pos] else []
  }

  /** One more body in the list adds its grave when it has no size left. */
  lemma GravesStep(es: seq<Entity>, e: Entity)
    ensures Graves(es + [e]) == Graves(es) + if e.size <= 0.0 then [e.pos] else []
  {
    assert (es + [e])[..|es|] == es;
  }

  /** How many players of `ps`, with bodies `es`, are outside team 0 and have no size left. */
  function HostileDeaths(ps: seq<Player>, es: seq<Entity>): nat
    requires |ps| == |es|
  {
    if ps == [] then 0
    else
      var n := |ps| - 1;
      HostileDeaths(ps[..n], es[..n]) + if ps[n].teamId != 0 && es[n].size <= 0.0 then 1 else 0
  }

  /**
   * What the second loop of `update` reads and writes, as values: the
   * players' actions, held projectiles and bodies, the flying projectiles,
   * the food list with the bodies of its foods, and the kill count.
   */
  datatype World = World(acts: seq<Action>, held: seq<Option<Projectile>>, bodies: seq<Entity>,
                         shots: seq<Projectile>, food: seq<Food>, meals: seq<Entity>, kills: nat)

  /**
   * After the rounds of the second loop of `update` for the first
   * `|r.done|` players of `ps`, started from `r.from`, which left those
   * players with the bodies `r.done`, the world is `w`: the other players
   * are as they were; the first ones keep their id and action and hold a
   * projectile exactly when they aim; what they let go of flies after the
   * old projectiles; a death food lies at each of their graves after the
   * old food; and each hostile death counted as a kill if the local player
   * is alive.
   */
  ghost predicate Progress(r: Round, ps: seq<Player>, w: World) {
    Shaped(r.from, ps, w) && |r.done| <= |ps| &&
    Ahead(r, w) && Behind(r, w) && Flown(r, w) && Buried(r, w) && Counted(r, ps, w)
  }

  /** The lists of `b` and `w` that run along the players `ps` have one entry per player. */
  ghost predicate Shaped(b: Before, ps: seq<Player>, w: World) {
    |b.acts| == |ps| && |b.held| == |ps| && |b.bodies| == |ps| &&
    |w.acts| == |ps| && |w.held| == |ps| && |w.bodies| == |ps| && |w.meals| == |w.food|
  }

  /** The players the rounds of `r` have not reached are as they were. */
  ghost predicate Ahead(r: Round, w: World)
    requires |r.from.acts| == |r.from.held| == |r.from.bodies| == |w.acts| == |w.held| == |w.bodies|
  {
    forall k :: |r.done| <= k < |w.bodies| ==>
      w.held[k] == r.from.held[k] && w.acts[k] == r.from.acts[k] && w.bodies[k] == r.from.bodies[k]
  }

  /**
   * The players the rounds of `r` have reached have the bodies `r.done`,
   * kept their ids and actions, and hold a projectile exactly when they aim.
   */
  ghost predicate Behind(r: Round, w: World)
    requires |r.done| <= |r.from.acts| == |r.from.bodies| == |w.acts| == |w.held| == |w.bodies|
  {
    forall k :: 0 <= k < |r.done| ==>
      w.bodies[k] == r.done[k] && r.done[k].ownerId == r.from.bodies[k].ownerId && w.acts[k] == r.from.acts[k] &&
      (w.held[k].Some? <==> r.from.acts[k].shoot.Some?)
  }

  /** What the players reached let go of flies after the projectiles that were flying. */
  ghost predicate Flown(r: Round, w: World)
    requires |r.done| <= |r.from.acts| == |r.from.held|
  {
    w.shots == r.from.projectiles + LetGo(r.from.acts[..|r.done|], r.from.held[..|r.done|])
  }

  /** A death food lies at the grave of each player reached, after the food that was there. */
  ghost predicate Buried(r: Round, w: World) {
    |w.food| == |r.from.food| + |Graves(r.done)| && |w.meals| == |w.food| &&
    w.food[..|r.from.food|] == r.from.food &&
    w.meals[|r.from.food|..] == Remains(Graves(r.done), r.from.size)
  }

  /** Each hostile death among the players reached counted as a kill if the local player is alive. */
  ghost predicate Counted(r: Round, ps: seq<Player>, w: World)
    requires |r.done| <= |ps|
  {
    w.kills == r.from.kills + if r.from.alive then HostileDeaths(ps[..|r.done|], r.done) else 0
  }

  /**
   * One round of the second loop of `update` for player `i` of `ps` took
   * the world from `w` to `w2`: no other player changed; player `i` kept its
   * id and action and holds a projectile exactly when it aims; what it let
   * go of flies after the other projectiles; if it died a food of size
   * `size` lies where it died after the other food, and its death counted
   * as a kill if it was hostile and the local player is `alive`.
   */
  ghost predicate Stepped(w: World, w2: World, ps: seq<Player>, i: nat, size: real, alive: bool) {
    i < |ps| && |w.acts| == |ps| && |w.held| == |ps| && |w.bodies| == |ps| &&
    |w2.acts| == |ps| && |w2.held| == |ps| && |w2.bodies| == |ps| &&
    |w.meals| == |w.food| && |w2.meals| == |w2.food| &&
    Aside(w, w2, i) && Turned(w, w2, i) && Buries(w, w2, i, size) &&
    w2.kills == w.kills + if alive && ps[i].teamId != 0 && w2.bodies[i].size <= 0.0 then 1 else 0
  }

  /** Only player `i` changed from `w` to `w2`. */
  ghost predicate Aside(w: World, w2: World, i: nat)
    requires |w.acts| == |w.held| == |w.bodies| == |w2.acts| == |w2.held| == |w2.bodies|
  {
    forall k :: 0 <= k < |w.bodies| && k != i ==>
      w2.bodies[k] == w.bodies[k] && w2.held[k] == w.held[k] && w2.acts[k] == w.acts[k]
  }

  /**
   * Player `i` kept its id and action, holds a projectile exactly when it
   * aims, and what it let go of flies after the other projectiles.
   */
  ghost predicate Turned(w: World, w2: World, i: nat)
    requires i < |w.acts| == |w.held| == |w.bodies| == |w2.acts| == |w2.held| == |w2.bodies|
  {
    w2.bodies[i].ownerId == w.bodies[i].ownerId && w2.acts[i] == w.acts[i] &&
    (w2.held[i].Some? <==> w2.acts[i].shoot.Some?) &&
    w2.shots == w.shots + (if w.acts[i].shoot.None? && w.held[i].Some? then [w.held[i].value] else [])
  }

  /** If player `i` died, a food of size `size` lies where it died, after the other food. */
  ghost predicate Buries(w: World, w2: World, i: nat, size: real)
    requires i < |w2.bodies|
  {
    var e := w2.bodies[i];
    (e.size > 0.0 ==> w2.food == w.food && w2.meals == w.meals) &&
    (e.size <= 0.0 ==>
      |w2.food| == |w.food| + 1 && w2.food[..|w.food|] == w.food &&
      w2.meals == w.meals + [Entity(None, Green, e.pos, Zero, size)])
  }

  /** One more round extends the progress of the second loop of `update` by that player. */
  lemma ProgressStep(r: Round, ps: seq<Player>, w: World, w2: World)
    requires Progress(r, ps, w) && Stepped(w, w2, ps, |r.done|, r.from.size, r.from.alive)
    ensures Progress(Round(r.from, r.done + [w2.bodies[|r.done|]]), ps, w2)
  {
    var r2 := Round(r.from, r.done + [w2.bodies[|r.done|]]);
    assert r2.done[..|r.done|] == r.done;
    FlownStep(r, w, w2);
    BuriedStep(r, w, w2);
    CountedStep(r, ps, w, w2);
  }

  /** One more round keeps what the projectiles let go of in order. */
  lemma FlownStep(r: Round, w: World, w2: World)
    requires |r.done| < |r.from.acts| == |r.from.held| == |r.from.bodies| == |w.acts| == |w.held| == |w.bodies| == |w2.acts| == |w2.held| == |w2.bodies|
    requires Flown(r, w) && Ahead(r, w) && Turned(w, w2, |r.done|)
    ensures Flown(Round(r.from, r.done + [w2.bodies[|r.done|]]), w2)
  {
    var b, i := r.from, |r.done|;
    assert b.acts[..i + 1][..i] == b.acts[..i] && b.held[..i + 1][..i] == b.held[..i];
  }

  /** One more round buries the player it reached if it died. */
  lemma BuriedStep(r: Round, w: World, w2: World)
    requires |r.done| < |w2.bodies| && Buried(r, w) && Buries(w, w2, |r.done|, r.from.size)
    ensures Buried(Round(r.from, r.done + [w2.bodies[|r.done|]]), w2)
  {
    var b, e := r.from, w2.bodies[|r.done|];
    GravesStep(r.done, e);
    if e.size <= 0.0 {
      assert w2.meals[|b.food|..] == w.meals[|b.food|..] + [Entity(None, Green, e.pos, Zero, b.size)];
      assert w2.food[..|b.food|] == w2.food[..|w.food|][..|b.food|];
    }
  }

  /** One more round counts the death of the player it reached if it was hostile. */
  lemma CountedStep(r: Round, ps: seq<Player>, w: World, w2: World)
    requires |r.done| < |ps| == |w2.bodies| && Counted(r, ps, w)
    requires w2.kills == w.kills + if r.from.alive && ps[|r.done|].teamId != 0 && w2.bodies[|r.done|].size <= 0.0 then 1 else 0
    ensures Counted(Round(r.from, r.done + [w2.bodies[|r.done|]]), ps, w2)
  {
    var i := |r.done|;
    assert ps[..i + 1][..i] == ps[..i];
    assert (r.done + [w2.bodies[i]])[..i] == r.done;
  }

  /**
   * The body `e` is the body `e0` after one round of the second loop of
   * `update` under the action `act`, as far as its size goes: it lost
   * `PlayerDeathSpeed * dt` of size if `decay`, and then either kept that
   * size or, while aiming, paid `ProjectileCostSpeed * dt` of mass, clamped
   * at zero, ending with a size of zero or more.
   */
  ghost predicate Moved(dt: real, decay: bool, act: Action, e0: Entity, e: Entity) {
    var size := e0.size - if decay then PlayerDeathSpeed * dt else 0.0;
    (act.shoot.None? ==> e.size == size) &&
    (act.shoot.Some? ==> 0.0 <= e.size && e.Mass() == Max(0.0, e0.(size := size).Mass() - ProjectileCostSpeed * dt))
  }

  /**
   * An aiming player dies in its round (is left with no size) exactly when
   * the aiming cost takes all the mass the decay left it.
   */
  lemma AimingDeath(dt: real, decay: bool, act: Action, e0: Entity, e: Entity)
    requires act.shoot.Some? && Moved(dt, decay, act, e0, e)
    ensures var size := e0.size - if decay then PlayerDeathSpeed * dt else 0.0;
      e.size <= 0.0 <==> size * size <= ProjectileCostSpeed * dt
  {
    var size := e0.size - if decay then PlayerDeathSpeed * dt else 0.0;
    assert e0.(size := size).Mass() == size * size;
    if 0.0 < e.size {
      SquarePositive(e.size, e.Mass());
    }
  }

  /**
   * A body `e0` that decayed to `mid` and then kept that size or, while
   * aiming, paid the aiming cost on it, moved as `Moved` says, wherever it
   * was steered.
   */
  lemma SizeMoved(dt: real, decay: bool, act: Action, e0: Entity, mid: Entity, e: Entity)
    requires mid == e0.(size := e0.size - if decay then PlayerDeathSpeed * dt else 0.0)
    requires act.shoot.None? ==> e.size == mid.size
    requires act.shoot.Some? ==>
      0.0 <= e.size && e.Mass() == Max(0.0, e.(size := mid.size).Mass() - ProjectileCostSpeed * dt)
    ensures Moved(dt, decay, act, e0, e)
  {
  }

  /**
   * The player part of the second loop of `update`: the body loses
   * `PlayerDeathSpeed * dt` of size when `decay` holds (the game has
   * started), then `Player::update` runs on it. The size `update` starts
   * from is kept in `prevSize`; the player holds a projectile exactly when
   * its action aims; a projectile it holds is the one it held before or a
   * new one; a player that does not aim lets go of what it held, and
   * keeps its size. The body is steered by `Steered` from the decayed one,
   * its size moves as `Moved` says, a held projectile is placed by `Aimed`,
   * and a released one has had its own `update` and keeps its hit flag.
   */
  method StepPlayer(root: real -> real, dt: real, p: Player, decay: bool) returns (released: Option<Projectile>)
    requires IsRoot(root)
    modifies p, p.Held()
    ensures p.prevSize == old(p.entity.size) - if decay then PlayerDeathSpeed * dt else 0.0
    ensures p.entity.ownerId == old(p.entity.ownerId) && p.action == old(p.action)
    ensures p.projectile.Some? <==> p.action.shoot.Some?
    ensures p.projectile.Some? ==> p.projectile == old(p.projectile) || fresh(p.projectile.value)
    ensures released == if p.action.shoot.None? then old(p.projectile) else None
    ensures p.action.shoot.None? ==> p.entity.size == p.prevSize
    ensures Moved(dt, decay, p.action, old(p.entity), p.entity)
    ensures Steered(root, p.action, dt, old(p.entity).(size := p.prevSize), p.entity.(size := p.prevSize))
    ensures p.action.shoot.Some? ==>
      Aimed(root, dt, p.action.shoot.value, p.entity.(size := p.prevSize),
            if old(p.projectile).Some? then old(p.projectile.value.entity).Mass() else 0.0,
            p.entity, p.projectile.value.entity)
    ensures released.Some? ==>
      released.value.entity == old(released.value.entity).Update(dt) &&
      released.value.actuallyHit == old(released.value.actuallyHit)
  {
    if decay {
      p.entity := p.entity.(size := p.entity.size - PlayerDeathSpeed * dt);
    } else {
      assert p.entity == p.entity.(size := p.entity.size);
    }
    ghost var mid := p.entity;
    ghost var emitted;
    released, emitted := p.Update(root, dt);
    SizeMoved(dt, decay, p.action, old(p.entity), mid, p.entity);
  }

  /**
   * `StepPlayer` as the second loop of `update` sees it: how the body
   * moved, and what the player holds and lets go of.
   */
  method PlayerRound(root: real -> real, dt: real, p: Player, decay: bool) returns (released: Option<Projectile>)
    requires IsRoot(root)
    modifies p, p.Held()
    ensures p.entity.ownerId == old(p.entity.ownerId) && p.action == old(p.action)
    ensures Moved(dt, decay, p.action, old(p.entity), p.entity)
    ensures p.projectile.Some? <==> p.action.shoot.Some?
    ensures p.projectile.Some? ==> p.projectile == old(p.projectile) || fresh(p.projectile.value)
    ensures released == if p.action.shoot.None? then old(p.projectile) else None
  {
    released := StepPlayer(root, dt, p, decay);
  }

  /** The projectiles the players of `ps` hold. */
  function HeldBy(ps: seq<Player>): set<Projectile>
    reads ps
  {
    set p | p in ps && p.projectile.Some? :: p.projectile.value
  }

  /**
   * A food the spawn loop of `update` makes: at rest, with no owner, inside
   * the half-open world square the random position is drawn from, and sized
   * `FoodSizeMin + u^4 * (FoodSizeMax - FoodSizeMin)` for some `u` in
   * `[0, 1)`, hence within `[FoodSizeMin, FoodSizeMax)`.
   */
  predicate Spawned(e: Entity) {
    e.ownerId.None? && e.color == Green && e.vel == Zero &&
    -WorldSize <= e.pos.x < WorldSize && -WorldSize <= e.pos.y < WorldSize &&
    FoodSizeMin <= e.size < FoodSizeMax
  }

  /** The fourth power of a number in `[0, 1)` is in `[0, 1)`. */
  lemma FourthPowerBelowOne(u: real)
    requires 0.0 <= u < 1.0
    ensures 0.0 <= u * u * u * u < 1.0
  {
    assert 0.0 <= u * u <= u;
    assert 0.0 <= u * u * u <= u * u;
    assert 0.0 <= u * u * u * u <= u * u * u;
  }

  /** One food of the spawn loop, at a random position with a random size. */
  method NewFood(root: real -> real) returns (f: Food)
    requires IsRoot(root)
    ensures fresh(f) && f.Valid() && Spawned(f.entity) && f.time == 0.0
    ensures PartsOf(root, f.entity.pos, f.entity.size, f.parts)
  {
    var x := Range(-WorldSize, WorldSize);
    var y := Range(-WorldSize, WorldSize);
    var u := Draw();
    FourthPowerBelowOne(u);
    var w := u * u * u * u;
    Between(w, FoodSizeMin, FoodSizeMax);
    f := new Food(root, Vec2(x, y), Lerp(FoodSizeMin, FoodSizeMax, w));
  }

  /** A random number in `[0, 1)`: the draw behind the spawn loop's `gen_range` calls and the food size. */
  method Draw() returns (u: real)
    ensures 0.0 <= u < 1.0
  {
    assert 0.0 <= 0.0 < 1.0;
    u :| 0.0 <= u < 1.0;
  }

  /** `gen_range(low, high)`: a random number in `[low, high)`. */
  method Range(low: real, high: real) returns (r: real)
    requires low < high
    ensures low <= r < high
  {
    var u := Draw();
    Between(u, low, high);
    r := Lerp(low, high, u);
  }

  /** The point a fraction `u` of the way from `low` to `high`. */
  function Lerp(low: real, high: real, u: real): real {
    low + u * (high - low)
  }

  /** The point a fraction `u` in `[0, 1)` of the way from `low` to `high` lies in `[low, high)`. */
  lemma Between(u: real, low: real, high: real)
    requires 0.0 <= u < 1.0 && low < high
    ensures low <= Lerp(low, high, u) < high
  {
    var d := high - low;
    ProductSign(u, d);
    ProductSign(1.0 - u, d);
    Distribute(u, d);
    assert u * (high - low) == u * d;
  }

  /** The product of a number of at least zero and a positive one is at least zero, and positive if the first is. */
  lemma ProductSign(a: real, b: real)
    requires 0.0 <= a && 0.0 < b
    ensures 0.0 <= a * b && (0.0 < a ==> 0.0 < a * b)
  {
  }

  lemma Distribute(u: real, d: real)
    ensures (1.0 - u) * d == d - u * d
  {
  }

  /**
   * Where `spawn_enemy` accepts a new enemy: inside the half-open world
   * square and more than two camera widths from the camera, toroidally.
   */
  predicate SpawnSpot(root: real -> real, camera: Vec2, pos: Vec2) {
    -WorldSize <= pos.x < WorldSize && -WorldSize <= pos.y < WorldSize &&
    Distance(root, camera, pos) > 2.0 * CameraFov
  }

  /** The representative of `c` in `[-WorldSize, WorldSize)`. */
  function Onto(c: real): real {
    if Wrap(c) == WorldSize then -WorldSize else Wrap(c)
  }

  /** `Onto(c)` lies in `[-WorldSize, WorldSize)` and differs from `c` by whole periods. */
  lemma OntoShift(c: real) returns (k: int)
    ensures -WorldSize <= Onto(c) < WorldSize && Onto(c) == c + Period * k as real
  {
    k := WrapShift(c);
    if Wrap(c) == WorldSize {
      k := k - 1;
    }
  }

  /**
   * `spawn_enemy` can always succeed: the point 40 to the right of the
   * camera, brought into the world, is an acceptable spot.
   */
  lemma SpawnSpotExists(root: real -> real, camera: Vec2)
    requires IsRoot(root)
    ensures exists pos :: SpawnSpot(root, camera, pos)
  {
    var kx := OntoShift(camera.x + 40.0);
    var ky := OntoShift(camera.y);
    var pos := Vec2(Onto(camera.x + 40.0), Onto(camera.y));
    WrapOfShift(40.0, kx);
    WrapOfShift(0.0, ky);
    assert pos.x - camera.x == 40.0 + Period * kx as real;
    assert pos.y - camera.y == 0.0 + Period * ky as real;
    assert DeltaPos(camera, pos) == Vec2(40.0, 0.0);
    RootUnique(root, 1600.0, 40.0);
    assert SpawnSpot(root, camera, pos);
  }

  /** The ids of `n` players `spawn_enemy` made and rejected. */
  method Discard(ids: IdSource, n: nat)
    modifies ids
    ensures ids.next == old(ids.next) + n
  {
    for i := 0 to n
      invariant ids.next == old(ids.next) + i
    {
      var id := ids.Take();
    }
  }

  /** A player `spawn_enemy` adds: a red bot of team 1, at rest and of the initial size, at a spot it accepts. */
  predicate Enemy(root: real -> real, p: Player, camera: Vec2)
    reads p
  {
    p.teamId == 1 && p.controller == Bot && p.projectile.None? &&
    p.entity.color == Red && p.entity.vel == Zero && p.entity.size == InitialSize &&
    SpawnSpot(root, camera, p.entity.pos)
  }

  /** No player of `ps` is outside team 0. */
  predicate Calm(ps: seq<Player>) {
    forall k :: 0 <= k < |ps| ==> ps[k].teamId == 0
  }

  /** The counters of the wave machine: the timer, the next wave's number, the waves finished and the time played. */
  datatype Waves = Waves(timer: real, next: nat, finished: nat, played: real)

  /** The timer after the cap that applies when no hostile player is left. */
  function CappedTimer(timer: real, calm: bool): real {
    if calm then Min(timer, WavePause) else timer
  }

  /** Whether a wave is launched: the game has started and the capped timer runs out in this tick. */
  predicate WaveDue(w: Waves, calm: bool, started: bool, dt: real) {
    started && CappedTimer(w.timer, calm) - dt < 0.0
  }

  /**
   * The counters after the wave machine of `update` runs from `w`, where
   * `calm` says no hostile player is left, `started` that the game has
   * started and `alive` that the local player is alive.
   */
  function NextWaves(w: Waves, calm: bool, started: bool, alive: bool, dt: real): Waves {
    var t := CappedTimer(w.timer, calm);
    var played := w.played + if alive then dt else 0.0;
    if !started then w.(timer := t)
    else if t - dt < 0.0 then
      Waves(TimeBetweenWaves, w.next + 1, if alive then (if w.next > 1 then w.next else 1) - 1 else w.finished, played)
    else w.(timer := t - dt, played := played)
  }

  /**
   * A wave is launched exactly when it is due, and then the wave number
   * grows by one; the time played grows by `dt` exactly when the game has
   * started and the local player is alive.
   */
  lemma WaveCount(w: Waves, calm: bool, started: bool, alive: bool, dt: real)
    ensures var r := NextWaves(w, calm, started, alive, dt);
      r.next == w.next + (if WaveDue(w, calm, started, dt) then 1 else 0) &&
      r.played == w.played + (if started && alive then dt else 0.0) &&
      (WaveDue(w, calm, started, dt) ==> r.timer == TimeBetweenWaves) &&
      (!WaveDue(w, calm, started, dt) && !(started && alive) ==> r.finished == w.finished && r.played == w.played)
  {
  }

  /**
   * Once the game has started the timer is never left negative, and with
   * no hostile player left and no wave launched it is at most `WavePause`.
   */
  lemma TimerBounds(w: Waves, calm: bool, started: bool, alive: bool, dt: real)
    requires 0.0 <= dt
    ensures var r := NextWaves(w, calm, started, alive, dt);
      (started ==> 0.0 <= r.timer) &&
      (calm && !WaveDue(w, calm, started, dt) ==> r.timer <= WavePause)
  {
  }

  /**
   * The number of finished waves stays below the next wave's number and
   * never goes down: a wave launched while the local player is alive
   * records every wave before the one just launched, and nothing else
   * changes the count.
   */
  lemma FinishedBehind(w: Waves, calm: bool, started: bool, alive: bool, dt: real)
    requires w.finished < w.next
    ensures var r := NextWaves(w, calm, started, alive, dt);
      r.finished < r.next && w.finished <= r.finished &&
      (WaveDue(w, calm, started, dt) && alive ==> r.finished == w.next - 1) &&
      (!(WaveDue(w, calm, started, dt) && alive) ==> r.finished == w.finished)
  {
  }

  class Game {
    /** The id counter of `Player::new` (the global `NEXT_ID`). */
    const ids: IdSource
    var players: seq<Player>
    var projectiles: seq<Projectile>
    var food: seq<Food>
    var nextFood: real
    var cameraPos: Vec2
    var nextWaveTimer: real
    var nextWave: nat
    var timePlayed: real
    var kills: nat
    var wavesFinished: nat
    var start: real
    /** Every object the world owns, now or earlier in its life. */
    ghost var Repr: set<object>

    /**
     * The ownership structure of the world: players, flying projectiles and
     * foods are distinct objects; a held projectile is held by one player and
     * is not flying; every player has an id from the counter, and no two
     * players share one; every food's clock is within `[0, 1]`.
     */
    ghost predicate Valid()
      reads this`Repr, this`players, this`projectiles, this`food, Repr - {this}
    {
      Owned() && Distinct(players) && Distinct(projectiles) && Distinct(food) && Separate() && Identified()
    }

    /** Everything the lists reach is in `Repr`, and every food's clock is in range. */
    ghost predicate Owned()
      reads this`Repr, this`players, this`projectiles, this`food, Repr - {this}
    {
      this in Repr && ids in Repr &&
      (forall p :: p in players ==> p in Repr && p.Held() <= Repr) &&
      (forall e :: e in projectiles ==> e in Repr) &&
      (forall f :: f in food ==> f in Repr && f.Valid())
    }

    /** A held projectile is not flying, and no two players hold the same one. */
    ghost predicate Separate()
      reads this`players, this`projectiles, players
    {
      (forall p, e :: p in players && e in projectiles ==> p.projectile != Some(e)) &&
      (forall p, q :: p in players && q in players && p != q && p.projectile.Some? ==> p.projectile != q.projectile)
    }

    /** Every player has an id the counter has handed out, and no two players share one. */
    ghost predicate Identified()
      reads this`players, players, ids
    {
      (forall p :: p in players ==> p.entity.ownerId.Some? && p.entity.ownerId.value < ids.next) &&
      (forall p, q :: p in players && q in players && p != q ==> p.entity.ownerId != q.entity.ownerId)
    }

    /** `Game::new`: a world with the camera at the origin, then `reset`. */
    constructor(ids: IdSource)
      modifies ids
      ensures Valid() && fresh(Repr - {ids})
      ensures this.ids == ids && cameraPos == Zero
      ensures |players| == 1 && players[0].teamId == 0 && players[0].controller == Keyboard
      ensures players[0].entity == Entity(Some(old(ids.next)), LocalColor, Zero, Zero, InitialSize)
      ensures food == [] && projectiles == [] && nextFood == 0.0
      ensures nextWaveTimer == WavePause && nextWave == 1
      ensures start == 0.0 && kills == 0 && wavesFinished == 0 && timePlayed == 0.0
    {
      this.ids := ids;
      players := [];
      projectiles := [];
      food := [];
      cameraPos := Zero;
      Repr := {};
      new;
      Reset();
    }

    /**
     * `reset`: a fresh session with only the local player, at the origin,
     * in team 0, under keyboard control; no food and no projectiles; the
     * first wave is `WavePause` away and every counter is zero. The camera
     * is left where it was.
     */
    method Reset()
      modifies this, ids
      ensures Valid() && fresh(Repr - {this, ids})
      ensures cameraPos == old(cameraPos)
      ensures |players| == 1 && players[0].teamId == 0 && players[0].controller == Keyboard
      ensures players[0].entity == Entity(Some(old(ids.next)), LocalColor, Zero, Zero, InitialSize)
      ensures food == [] && projectiles == [] && nextFood == 0.0
      ensures nextWaveTimer == WavePause && nextWave == 1
      ensures start == 0.0 && kills == 0 && wavesFinished == 0 && timePlayed == 0.0
    {
      ResetCounters();
      ResetWorld();
    }

    /** The counters `reset` sets. */
    method ResetCounters()
      modifies this`nextWaveTimer, this`nextWave, this`start, this`kills, this`wavesFinished, this`timePlayed
      ensures nextWaveTimer == WavePause && nextWave == 1
      ensures start == 0.0 && kills == 0 && wavesFinished == 0 && timePlayed == 0.0
    {
      nextWaveTimer := WavePause;
      nextWave := 1;
      start := 0.0;
      kills := 0;
      wavesFinished := 0;
      timePlayed := 0.0;
    }

    /** The lists `reset` sets: only the local player, no food, no projectiles. */
    method ResetWorld()
      modifies this`players, this`food, this`nextFood, this`projectiles, this`Repr, ids
      ensures Valid() && fresh(Repr - {this, ids})
      ensures |players| == 1 && players[0].teamId == 0 && players[0].controller == Keyboard
      ensures players[0].entity == Entity(Some(old(ids.next)), LocalColor, Zero, Zero, InitialSize)
      ensures food == [] && projectiles == [] && nextFood == 0.0
    {
      var p := new Player(ids, Zero, LocalColor, Keyboard, 0);
      players := [p];
      food := [];
      nextFood := 0.0;
      projectiles := [];
      Repr := {this, ids, p};
      SoleValid();
    }

    /** A world whose only object besides the counter is one fresh player is well formed. */
    lemma SoleValid()
      requires |players| == 1 && projectiles == [] && food == []
      requires Repr == {this, ids, players[0]} && players[0].projectile.None?
      requires players[0].entity.ownerId.Some? && players[0].entity.ownerId.value < ids.next
      ensures Valid()
    {
    }

    /** The world as the controllers see it. */
    function View(): (w: WorldView)
      reads this, Repr
      requires Valid()
      ensures |w.players| == |players| && |w.food| == |food|
      ensures forall i :: 0 <= i < |players| ==> w.players[i] == ViewOf(players[i])
      ensures forall i :: 0 <= i < |food| ==> w.food[i] == food[i].entity.pos
    {
      var ps := seq(|players|, i reads this, Repr requires 0 <= i < |players| && Valid() => ViewOf(players[i]));
      Snapshot(ps, food)
    }

    /**
     * The first loop of `update`: every player stores the action its
     * controller chooses for the world as it was before the loop (acting
     * changes nothing a controller sees); the result says whether a team-0
     * player is among them.
     */
    method ActAll(root: real -> real, keys: Keys) returns (playerAlive: bool, ghost seen: WorldView)
      requires IsRoot(root) && Valid()
      modifies players`action
      ensures Valid() && Repr == old(Repr) && seen == old(View())
      ensures playerAlive <==> exists i :: 0 <= i < |players| && players[i].teamId == 0
      ensures forall i :: 0 <= i < |players| ==>
        players[i].entity == old(players[i].entity) && players[i].projectile == old(players[i].projectile)
      ensures forall i :: 0 <= i < |players| ==>
        players[i].action == ControllerAction(root, players[i].controller, players[i].entity.ownerId.value, seen, keys)
    {
      var w := View();
      seen := w;
      ActEach(root, players, w, keys);
      playerAlive := exists i :: 0 <= i < |players| && players[i].teamId == 0;
      KeptValid();
    }

    /**
     * The second loop of `update`: each player in turn decays, updates,
     * lets go of its projectile or keeps aiming, and dies or not
     * (`UpdateOne`). Afterwards every player keeps its id and holds a
     * projectile exactly when it aims; the released projectiles fly after
     * the old ones in player order; one food per dead player follows the old
     * food, in player order; and the kill count grew by the hostile deaths
     * if the local player was alive.
     */
    method UpdatePlayers(root: real -> real, dt: real, playerAlive: bool)
      requires IsRoot(root) && Valid()
      modifies this`projectiles, this`food, this`Repr, this`kills, players, HeldBy(players)
      ensures Valid() && fresh(Repr - old(Repr)) && players == old(players)
      ensures forall k :: 0 <= k < |players| ==>
        players[k].entity.ownerId == old(players[k].entity.ownerId) && players[k].action == old(players[k].action) &&
        (players[k].projectile.Some? <==> players[k].action.shoot.Some?)
      ensures projectiles == old(projectiles) + old(Releases(players))
      ensures |food| == |old(food)| + |Graves(Bodies(players))| && food[..|old(food)|] == old(food)
      ensures Morsels(food[|old(food)|..]) == Remains(Graves(Bodies(players)), DeathFoodSize(root))
      ensures kills == old(kills) + if playerAlive then HostileDeaths(players, Bodies(players)) else 0
    {
      ghost var b := Before(DeathFoodSize(root), playerAlive, Actions(players), Holds(players), Bodies(players),
                            projectiles, food, kills);
      UpdateRounds(root, dt, playerAlive, b);
      UpdatedAll(b);
    }

    /** The rounds of the second loop of `update`, one per player, from `b`. */
    method UpdateRounds(root: real -> real, dt: real, playerAlive: bool, ghost b: Before)
      requires IsRoot(root) && Valid() && b.size == DeathFoodSize(root) && b.alive == playerAlive && Starts(b)
      modifies this`projectiles, this`food, this`Repr, this`kills, players, HeldBy(players)
      ensures Valid() && fresh(Repr - old(Repr)) && players == old(players)
      ensures Updated(Round(b, Bodies(players)))
    {
      StartsUpdated(b);
      ghost var done: seq<Entity> := [];
      for i := 0 to |players|
        invariant fresh(Repr - old(Repr))
        invariant |done| == i && Midway(Round(b, done))
      {
        done := UpdateOne(root, dt, i, playerAlive, Round(b, done));
      }
      UpdatedBodies(Round(b, done));
    }

    /** Once every player has had its round, the bodies are those the rounds left. */
    lemma UpdatedBodies(r: Round)
      requires Updated(r) && |r.done| == |players|
      ensures Bodies(players) == r.done
    {
      assert Behind(r, Now());
    }

    /** The world is well formed, and the rounds are done as `r` says. */
    ghost predicate Midway(r: Round)
      reads this`Repr, this`players, this`projectiles, this`food, this`kills, Repr - {this}, players, food
    {
      Valid() && Updated(r)
    }

    /** `b` is the state of the world as it is now. */
    ghost predicate Starts(b: Before)
      reads this`players, this`projectiles, this`food, this`kills, players
    {
      b.acts == Actions(players) && b.held == Holds(players) && b.bodies == Bodies(players) &&
      b.projectiles == projectiles && b.food == food && b.kills == kills
    }

    /** No round done yet. */
    lemma StartsUpdated(b: Before)
      requires Starts(b)
      ensures Updated(Round(b, []))
    {
      assert food[..|food|] == food;
      assert Morsels(food[|food|..]) == [];
    }

    /**
     * All rounds done, from `b`, the state before them: what `Updated` says
     * about the whole list, in terms of that state.
     */
    twostate lemma UpdatedAll(b: Before)
      requires old(Starts(b)) && players == old(players) && Updated(Round(b, Bodies(players)))
      ensures forall k :: 0 <= k < |players| ==>
        players[k].entity.ownerId == old(players[k].entity.ownerId) && players[k].action == old(players[k].action) &&
        (players[k].projectile.Some? <==> players[k].action.shoot.Some?)
      ensures projectiles == old(projectiles) + old(Releases(players))
      ensures |food| == |old(food)| + |Graves(Bodies(players))| && food[..|old(food)|] == old(food)
      ensures Morsels(food[|old(food)|..]) == Remains(Graves(Bodies(players)), b.size)
      ensures kills == old(kills) + if b.alive then HostileDeaths(players, Bodies(players)) else 0
    {
      assert players[..|players|] == players;
      assert b.acts[..|players|] == b.acts && b.held[..|players|] == b.held;
    }

    /** The world as it is now, as values. */
    ghost function Now(): World
      reads this`players, this`projectiles, this`food, this`kills, players, food
    {
      World(Actions(players), Holds(players), Bodies(players), projectiles, food, Morsels(food), kills)
    }

    /** The rounds of the second loop of `update` are done as `r` says. */
    ghost predicate Updated(r: Round)
      reads this`players, this`projectiles, this`food, this`kills, players, food
    {
      Progress(r, players, Now())
    }

    /**
     * One round of the second loop of `update` for the `i`-th player: its
     * body decays once the game has started, `Player::update` runs, a
     * released projectile starts flying, and a player left with no size
     * leaves a food of `DeathFoodSize` where it died, counting as a kill
     * when it was hostile and the local player is alive.
     */
    method UpdateOne(root: real -> real, dt: real, i: nat, playerAlive: bool, ghost r: Round) returns (ghost done: seq<Entity>)
      requires IsRoot(root) && i == |r.done| < |players| && Midway(r)
      requires r.from.size == DeathFoodSize(root) && r.from.alive == playerAlive
      modifies this`projectiles, this`food, this`Repr, this`kills, players[i], players[i].Held()
      ensures fresh(Repr - old(Repr))
      ensures done == r.done + [players[i].entity] && Midway(Round(r.from, done))
    {
      ghost var w := Now();
      assert Ahead(r, w);
      StepWorld(root, dt, i, playerAlive, w);
      ProgressStep(r, players, w, Now());
      done := r.done + [players[i].entity];
    }

    /** `Step`, seen as a change of the world from `w`. */
    method StepWorld(root: real -> real, dt: real, i: nat, playerAlive: bool, ghost w: World)
      requires IsRoot(root) && Valid() && i < |players| && w == Now()
      modifies this`projectiles, this`food, this`Repr, this`kills, players[i], players[i].Held()
      ensures Valid() && fresh(Repr - old(Repr))
      ensures Stepped(w, Now(), players, i, DeathFoodSize(root), playerAlive)
    {
      Turn(root, dt, i, playerAlive);
      SteppedNow(w, i, DeathFoodSize(root), playerAlive);
    }

    /**
     * The world now differs from `w` only as one round of the `i`-th player
     * may change it: the facts `Step` states, read against `w`.
     */
    lemma SteppedNow(w: World, i: nat, size: real, alive: bool)
      requires i < |players| == |w.acts| == |w.held| == |w.bodies| && w.meals == Morsels(w.food)
      requires forall k :: 0 <= k < |players| && k != i ==>
        players[k].entity == w.bodies[k] && players[k].projectile == w.held[k] && players[k].action == w.acts[k]
      requires players[i].entity.ownerId == w.bodies[i].ownerId && players[i].action == w.acts[i]
      requires players[i].projectile.Some? <==> players[i].action.shoot.Some?
      requires projectiles == w.shots + if w.acts[i].shoot.None? && w.held[i].Some? then [w.held[i].value] else []
      requires players[i].entity.size > 0.0 ==> food == w.food
      requires players[i].entity.size <= 0.0 ==>
        |food| == |w.food| + 1 && food[..|w.food|] == w.food &&
        food[|w.food|].entity == Entity(None, Green, players[i].entity.pos, Zero, size)
      requires kills == w.kills + if alive && players[i].teamId != 0 && players[i].entity.size <= 0.0 then 1 else 0
      ensures Stepped(w, Now(), players, i, size, alive)
    {
      assert Morsels(food)[..|w.food|] == w.meals;
    }

    /** `Step` as the world sees it: what the round does to the lists, the count and the player's hold. */
    method Turn(root: real -> real, dt: real, i: nat, playerAlive: bool)
      requires IsRoot(root) && Valid() && i < |players|
      modifies this`projectiles, this`food, this`Repr, this`kills, players[i], players[i].Held()
      ensures Valid() && fresh(Repr - old(Repr))
      ensures players[i].entity.ownerId == old(players[i].entity.ownerId) && players[i].action == old(players[i].action)
      ensures players[i].projectile.Some? <==> players[i].action.shoot.Some?
      ensures projectiles == old(projectiles) +
        if old(players[i].action.shoot.None? && players[i].projectile.Some?) then [old(players[i].projectile.value)] else []
      ensures players[i].entity.size > 0.0 ==> food == old(food)
      ensures players[i].entity.size <= 0.0 ==>
        |food| == |old(food)| + 1 && food[..|old(food)|] == old(food) && fresh(food[|old(food)|]) &&
        food[|old(food)|].entity == Entity(None, Green, players[i].entity.pos, Zero, DeathFoodSize(root))
      ensures kills == old(kills) + if playerAlive && players[i].teamId != 0 && players[i].entity.size <= 0.0 then 1 else 0
    {
      Step(root, dt, i, playerAlive);
    }

    /** The state change of one round of the second loop of `update`, for the `i`-th player. */
    method Step(root: real -> real, dt: real, i: nat, playerAlive: bool)
      requires IsRoot(root) && Valid() && i < |players|
      modifies this`projectiles, this`food, this`Repr, this`kills, players[i], players[i].Held()
      ensures Valid() && fresh(Repr - old(Repr))
      ensures players[i].entity.ownerId == old(players[i].entity.ownerId) && players[i].action == old(players[i].action)
      ensures players[i].projectile.Some? <==> players[i].action.shoot.Some?
      ensures Moved(dt, start > StartDistance, players[i].action, old(players[i].entity), players[i].entity)
      ensures projectiles == old(projectiles) +
        if old(players[i].action.shoot.None? && players[i].projectile.Some?) then [old(players[i].projectile.value)] else []
      ensures players[i].entity.size > 0.0 ==> food == old(food)
      ensures players[i].entity.size <= 0.0 ==>
        |food| == |old(food)| + 1 && food[..|old(food)|] == old(food) && fresh(food[|old(food)|]) &&
        food[|old(food)|].entity == Entity(None, Green, players[i].entity.pos, Zero, DeathFoodSize(root))
      ensures kills == old(kills) + if playerAlive && players[i].teamId != 0 && players[i].entity.size <= 0.0 then 1 else 0
    {
      var p := players[i];
      var released := PlayerRound(root, dt, p, start > StartDistance);
      Launch(released);
      Bury(root, p, playerAlive);
      Repr := Repr + p.Held();
      StepKeepsValid(i);
    }

    /** A released projectile starts flying: it goes to the end of the list. */
    method Launch(released: Option<Projectile>)
      modifies this`projectiles
      ensures projectiles == old(projectiles) + if released.Some? then [released.value] else []
    {
      if released.Some? {
        projectiles := projectiles + [released.value];
      }
    }

    /**
     * A player left with no size leaves a food of `DeathFoodSize` where it
     * died, and counts as a kill when it is hostile and the local player is
     * alive.
     */
    method Bury(root: real -> real, p: Player, playerAlive: bool)
      requires IsRoot(root)
      modifies this`food, this`Repr, this`kills
      ensures p.entity.size > 0.0 ==> food == old(food) && Repr == old(Repr)
      ensures p.entity.size <= 0.0 ==>
        |food| == |old(food)| + 1 && food[..|old(food)|] == old(food) && fresh(food[|old(food)|]) &&
        food[|old(food)|].Valid() &&
        food[|old(food)|].entity == Entity(None, Green, p.entity.pos, Zero, DeathFoodSize(root)) &&
        Repr == old(Repr) + {food[|old(food)|]}
      ensures kills == old(kills) + if playerAlive && p.teamId != 0 && p.entity.size <= 0.0 then 1 else 0
    {
      if p.entity.size <= 0.0 {
        var f := new Food(root, p.entity.pos, DeathFoodSize(root));
        food := food + [f];
        Repr := Repr + {f};
        if p.teamId != 0 && playerAlive {
          kills := kills + 1;
        }
      }
    }

    /**
     * One round of the second loop keeps the world well formed: the `i`-th
     * player keeps its id and holds its old projectile, a new one or none;
     * the projectile it let go of, if any, is now flying; at most one new
     * food was added; nothing else changed that the structure depends on.
     */
    twostate lemma StepKeepsValid(i: nat)
      requires old(Valid()) && i < |players| && players == old(players) && ids.next == old(ids.next)
      requires forall p :: p in players ==> p.entity.ownerId == old(p.entity.ownerId)
      requires forall p :: p in players && p != players[i] ==> p.projectile == old(p.projectile)
      requires players[i].projectile.Some? ==>
        players[i].projectile == old(players[i].projectile) || fresh(players[i].projectile.value)
      requires projectiles == old(projectiles) +
        if old(players[i].projectile).Some? && players[i].projectile.None? then [old(players[i].projectile.value)] else []
      requires food == old(food) ||
        (|food| == |old(food)| + 1 && food[..|old(food)|] == old(food) && fresh(food[|old(food)|]) && food[|old(food)|].Valid())
      requires forall f :: f in old(food) ==> f.time == old(f.time)
      requires old(Repr) <= Repr && players[i].Held() <= Repr && forall f :: f in food ==> f in Repr
      ensures Valid()
    {
      var me := players[i];
      assert me in old(players);
      var released := if old(me.projectile).Some? && me.projectile.None? then [old(me.projectile.value)] else [];
      assert forall e :: e in projectiles ==> e in old(projectiles) || e in released;
      assert Owned() by {
        forall p | p in players
          ensures p.Held() <= Repr
        {
          if p != me {
            assert p.Held() == old(p.Held());
          }
        }
        forall f | f in food
          ensures f.Valid()
        {
          if f in old(food) {
            assert old(f.Valid());
          } else {
            assert f == food[|old(food)|];
          }
        }
      }
      assert Distinct(projectiles) by {
        if released != [] {
          assert old(me.projectile.value) !in old(projectiles);
        }
      }
      assert Distinct(food) by {
        if food != old(food) {
          assert food[|old(food)|] !in old(food);
        }
      }
      assert Separate() by {
        forall p, e | p in players && e in projectiles
          ensures p.projectile != Some(e)
        {
          if p != me && e in released {
            assert old(p.projectile) != old(me.projectile);
          }
        }
        forall p, q | p in players && q in players && p != q && p.projectile.Some?
          ensures p.projectile != q.projectile
        {
          if p != me && q != me {
            assert old(p.projectile) != old(q.projectile);
          }
        }
      }
    }

    /**
     * `update`: the phases of one tick in the order the source runs them.
     * The world stays well formed, the food clock is not behind, and every
     * food left has size left. `alive` says whether a team-0 player was
     * there when the tick began, and `settled` is the player list the wave
     * machine sees: the wave counters move exactly as `NextWaves` says from
     * it, the kill count and the wave number never go down, and enemies are
     * only ever added after `settled`.
     */
    method Tick(root: real -> real, dt: real, keys: Keys) returns (ghost alive: bool, ghost settled: seq<Player>)
      requires IsRoot(root) && Valid() && 0.0 <= dt
      modifies Repr
      ensures Valid() && fresh(Repr - old(Repr))
      ensures 0.0 <= nextFood
      ensures forall f :: f in food ==> f.entity.size > 0.0
      ensures alive <==> exists i :: 0 <= i < |old(players)| && old(players)[i].teamId == 0
      ensures WaveState() == NextWaves(old(WaveState()), Calm(settled), old(start) > StartDistance, alive, dt)
      ensures old(kills) <= kills && old(nextWave) <= nextWave
      ensures |settled| <= |players| && players[..|settled|] == settled
    {
      var playerAlive := Simulate(root, dt, keys);
      alive := playerAlive;
      settled := players;
      StepWaves(root, dt, playerAlive);
    }

    /**
     * The phases of `update` before the wave machine: players, projectiles,
     * contacts and food, seen from the tick. The wave counters, the start
     * distance and the kill count's lower bound are all the wave machine
     * needs from them.
     */
    method Simulate(root: real -> real, dt: real, keys: Keys) returns (playerAlive: bool)
      requires IsRoot(root) && Valid() && 0.0 <= dt
      modifies Repr
      ensures Valid() && fresh(Repr - old(Repr))
      ensures 0.0 <= nextFood
      ensures forall f :: f in food ==> f.entity.size > 0.0
      ensures playerAlive <==> exists i :: 0 <= i < |old(players)| && old(players)[i].teamId == 0
      ensures old(kills) <= kills && WaveState() == old(WaveState()) && start == old(start)
    {
      playerAlive := MovePlayers(root, dt, keys);
      FlyProjectiles(dt);
      ResolveContacts(root);
      RefreshFood(root, dt);
    }

    /**
     * The player phases of `update`: every player acts on the world as it
     * was, the player loop runs, and the players with no size left are
     * removed. The result says whether a team-0 player was there; the kill
     * count does not go down, and the wave counters and the start distance
     * are left alone.
     */
    method MovePlayers(root: real -> real, dt: real, keys: Keys) returns (playerAlive: bool)
      requires IsRoot(root) && Valid()
      modifies Repr
      ensures Valid() && fresh(Repr - old(Repr))
      ensures playerAlive <==> exists i :: 0 <= i < |old(players)| && old(players)[i].teamId == 0
      ensures old(kills) <= kills && WaveState() == old(WaveState()) && start == old(start)
      ensures forall p :: p in players ==> p.entity.size > 0.0
    {
      ghost var seen;
      playerAlive, seen := ActAll(root, keys);
      HeldInRepr();
      SettlePlayers(root, dt, playerAlive);
    }

    /** `AdvancePlayers` seen from the tick: the world stays well formed and the kill count does not go down. */
    method SettlePlayers(root: real -> real, dt: real, playerAlive: bool)
      requires IsRoot(root) && Valid()
      modifies this`players, this`projectiles, this`food, this`Repr, this`kills, players, HeldBy(players)
      ensures Valid() && fresh(Repr - old(Repr))
      ensures old(kills) <= kills
      ensures forall p :: p in players ==> p.entity.size > 0.0
    {
      AdvancePlayers(root, dt, playerAlive);
    }

    /** `MoveProjectiles` seen from the tick: the world stays well formed. */
    method FlyProjectiles(dt: real)
      requires Valid()
      modifies this`projectiles, projectiles
      ensures Valid()
    {
      ghost var emitted := MoveProjectiles(dt);
    }

    /** `Contacts` seen from the tick: the world stays well formed. */
    method ResolveContacts(root: real -> real)
      requires IsRoot(root) && Valid()
      modifies players`entity, projectiles`entity, projectiles`actuallyHit
      ensures Valid()
    {
      ghost var collided, struck := Contacts(root);
    }

    /**
     * The player loop of `update` and the removal of the players with no
     * size left, with what `UpdatePlayers` and `RetainPlayers` promise.
     */
    method AdvancePlayers(root: real -> real, dt: real, playerAlive: bool)
      requires IsRoot(root) && Valid()
      modifies this`players, this`projectiles, this`food, this`Repr, this`kills, players, HeldBy(players)
      ensures Valid() && fresh(Repr - old(Repr))
      ensures projectiles == old(projectiles) + old(Releases(players))
      ensures |food| == |old(food)| + |Graves(Bodies(old(players)))| && food[..|old(food)|] == old(food)
      ensures Morsels(food[|old(food)|..]) == Remains(Graves(Bodies(old(players))), DeathFoodSize(root))
      ensures kills == old(kills) + if playerAlive then HostileDeaths(old(players), Bodies(old(players))) else 0
      ensures players == Select(old(players), LivingMask(old(players)))
      ensures forall p :: p in players ==> p.entity.size > 0.0
    {
      UpdatePlayers(root, dt, playerAlive);
      RetainPlayers();
    }

    /** Every projectile a player holds belongs to the world. */
    lemma HeldInRepr()
      requires Valid()
      ensures HeldBy(players) <= Repr
    {
      forall e | e in HeldBy(players)
        ensures e in Repr
      {
        var p :| p in players && p.projectile == Some(e);
        assert e in p.Held();
      }
    }

    /**
     * The projectile phases of `update`: every flying projectile decays and
     * moves, its sparks age as its own `update` says (`emitted[k]` being
     * the ones it emitted), and exactly the live ones stay, in order: those
     * with size left after the decay and those with an old spark that
     * lingers.
     */
    method MoveProjectiles(dt: real) returns (ghost emitted: seq<seq<Spark>>)
      requires Valid()
      modifies this`projectiles, projectiles
      ensures Valid() && |emitted| == |old(projectiles)|
      ensures Shots(old(projectiles)) == Decays(old(Shots(projectiles)), dt)
      ensures Flags(old(projectiles)) == old(Flags(projectiles))
      ensures Trails(old(projectiles)) == Burned(old(Trails(projectiles)), emitted, dt)
      ensures projectiles == Select(old(projectiles), Lasting(old(Shots(projectiles)), old(Trails(projectiles)), dt))
      ensures forall e :: e in projectiles ==> e.Alive()
    {
      emitted := DecayProjectiles(dt);
      RetainProjectiles();
    }

    /**
     * The contact phases of `update`: players collide, leaving the bodies
     * `collided`; projectiles hit players, as `struck` records; then
     * projectiles hit one another.
     */
    method Contacts(root: real -> real) returns (ghost collided: seq<Entity>, ghost struck: Barrage)
      requires IsRoot(root) && Valid()
      modifies players`entity, projectiles`entity, projectiles`actuallyHit
      ensures Valid()
      ensures collided == CollideAll(root, old(Bodies(players)), AllVisits(|players|))
      ensures struck == BarrageUpTo(root, old(Shots(projectiles)), collided, ProjectileStrength, |projectiles|)
      ensures Bodies(players) == struck.bodies
      ensures Shots(projectiles) == ClashAll(root, struck.shots, AllVisits(|projectiles|))
      ensures Flags(projectiles) == Either(old(Flags(projectiles)), struck.hits)
    {
      CollidePlayers(root);
      collided := Bodies(players);
      struck := HitPlayers(root);
      HitProjectiles(root);
    }

    /**
     * The food phases of `update`: food spawns, every food's clock runs,
     * the players eat, and the eaten food is removed. `spawned` is the list
     * after the spawn loop. The clock is not behind, and a clock that did
     * not run out spawns nothing; the spawn loop only adds fresh foods at
     * the end, never past `MaxFood`; and the foods that stay are foods of
     * `spawned` with size left.
     */
    method TendFood(root: real -> real, dt: real) returns (ghost spawned: seq<Food>)
      requires IsRoot(root) && Valid() && 0.0 <= dt
      modifies this`food, this`nextFood, this`Repr, food`time, food`parts, food`entity, players`entity
      ensures Valid() && fresh(Repr - old(Repr))
      ensures 0.0 <= nextFood
      ensures 0.0 <= old(nextFood) - dt ==> nextFood == old(nextFood) - dt && spawned == old(food)
      ensures |old(food)| <= |spawned| && spawned[..|old(food)|] == old(food)
      ensures |spawned| > |old(food)| ==> |spawned| <= MaxFood
      ensures forall k :: |old(food)| <= k < |spawned| ==> fresh(spawned[k])
      ensures forall f :: f in food ==> f in spawned && f.entity.size > 0.0
    {
      SpawnFood(root, dt);
      spawned := food;
      FeedPlayers(root, dt);
      RetainFood();
    }

    /** `UpdateFood` then `ConsumeFood` as `TendFood` sees them: the world stays well formed. */
    method FeedPlayers(root: real -> real, dt: real)
      requires IsRoot(root) && Valid() && 0.0 <= dt
      modifies food`time, food`parts, food`entity, players`entity
      ensures Valid()
    {
      UpdateFood(dt);
      ConsumeFood(root);
    }

    /** `TendFood` seen from the tick: the world stays well formed, the clock is not behind and every food left has size left. */
    method RefreshFood(root: real -> real, dt: real)
      requires IsRoot(root) && Valid() && 0.0 <= dt
      modifies this`food, this`nextFood, this`Repr, food`time, food`parts, food`entity, players`entity
      ensures Valid() && fresh(Repr - old(Repr))
      ensures 0.0 <= nextFood
      ensures forall f :: f in food ==> f.entity.size > 0.0
    {
      ghost var spawned := TendFood(root, dt);
    }

    /** `players.retain(|e| e.size > 0.0)`: exactly the players with size left stay, in order. */
    method RetainPlayers()
      requires Valid()
      modifies this`players
      ensures Valid()
      ensures players == Select(old(players), LivingMask(old(players)))
      ensures forall p :: p in old(players) ==> (p in players <==> p.entity.size > 0.0)
      ensures forall p :: p in players ==> p in old(players)
    {
      SelectDistinct(players, LivingMask(players));
      players := Select(players, LivingMask(players));
    }

    /**
     * The projectile loop of `update`: every flying projectile shrinks by
     * `ProjectileDeathSpeed * dt` and moves; its sparks are those of its own
     * `update`, with `emitted[k]` the sparks it emitted, so it is alive
     * exactly when it has size left or an old spark lingers.
     */
    method DecayProjectiles(dt: real) returns (ghost emitted: seq<seq<Spark>>)
      requires Valid()
      modifies projectiles
      ensures Valid() && |emitted| == |projectiles|
      ensures Shots(projectiles) == Decays(old(Shots(projectiles)), dt)
      ensures Flags(projectiles) == old(Flags(projectiles))
      ensures Trails(projectiles) == Burned(old(Trails(projectiles)), emitted, dt)
      ensures FlyingMask(projectiles) == Lasting(old(Shots(projectiles)), old(Trails(projectiles)), dt)
    {
      emitted := DecayEach(projectiles, dt);
      FlewValid();
    }

    /** `projectiles.retain(|e| e.alive())`: exactly the live projectiles stay, in order. */
    method RetainProjectiles()
      requires Valid()
      modifies this`projectiles
      ensures Valid()
      ensures projectiles == Select(old(projectiles), FlyingMask(old(projectiles)))
      ensures forall e :: e in old(projectiles) ==> (e in projectiles <==> e.Alive())
      ensures forall e :: e in projectiles ==> e in old(projectiles)
      ensures Shots(old(projectiles)) == old(Shots(projectiles)) && Flags(old(projectiles)) == old(Flags(projectiles))
      ensures Trails(old(projectiles)) == old(Trails(projectiles)) && FlyingMask(old(projectiles)) == old(FlyingMask(projectiles))
    {
      SelectDistinct(projectiles, FlyingMask(projectiles));
      projectiles := Select(projectiles, FlyingMask(projectiles));
    }

    /** The player-collide loop of `update`: bodies end as `CollideAll` says, and only move. */
    method CollidePlayers(root: real -> real)
      requires IsRoot(root) && Valid()
      modifies players`entity
      ensures Valid()
      ensures Bodies(players) == CollideAll(root, old(Bodies(players)), AllVisits(|players|))
    {
      ghost var es := Bodies(players);
      CollideEach(root, players);
      CollideMovesOnly(root, es, AllVisits(|players|));
      KeptValid();
    }

    /**
     * The projectile-to-player loop of `update` with strength
     * `ProjectileStrength`: bodies and hit flags end as `BarrageUpTo` says;
     * no player is hit by a projectile of its own.
     */
    method HitPlayers(root: real -> real) returns (ghost b: Barrage)
      requires IsRoot(root) && Valid()
      modifies projectiles`entity, projectiles`actuallyHit, players`entity
      ensures Valid()
      ensures b == BarrageUpTo(root, old(Shots(projectiles)), old(Bodies(players)), ProjectileStrength, |projectiles|)
      ensures Shots(projectiles) == b.shots && Bodies(players) == b.bodies
      ensures Flags(projectiles) == Either(old(Flags(projectiles)), b.hits)
    {
      ghost var qs, es := Shots(projectiles), Bodies(players);
      b := BarrageUpTo(root, qs, es, ProjectileStrength, |projectiles|);
      BarrageEach(root, projectiles, players, ProjectileStrength);
      BarrageSparesOwner(root, qs, es, ProjectileStrength, |projectiles|);
      KeptValid();
    }

    /** The projectile-to-projectile loop of `update`: bodies end as `ClashAll` says. */
    method HitProjectiles(root: real -> real)
      requires IsRoot(root) && Valid()
      modifies projectiles`entity
      ensures Valid()
      ensures Shots(projectiles) == ClashAll(root, old(Shots(projectiles)), AllVisits(|projectiles|))
    {
      ClashEach(root, projectiles);
      KeptValid();
    }

    /**
     * The food-spawn loop of `update`: the clock runs down by `dt`, and while
     * it is below zero it is pushed back by a random gap in
     * `[FoodSpawnMin, FoodSpawnMax)` and a spawned food joins the list if
     * it holds fewer than `MaxFood`. The clock ends at zero or more; a clock
     * that did not run out spawns nothing; the list only grows at its end,
     * never past `MaxFood`, with spawned foods.
     */
    method SpawnFood(root: real -> real, dt: real)
      requires IsRoot(root) && Valid()
      modifies this`food, this`nextFood, this`Repr
      ensures Valid() && fresh(Repr - old(Repr))
      ensures 0.0 <= nextFood
      ensures 0.0 <= old(nextFood) - dt ==> nextFood == old(nextFood) - dt && food == old(food)
      ensures |old(food)| <= |food| && food[..|old(food)|] == old(food)
      ensures |food| > |old(food)| ==> |food| <= MaxFood
      ensures forall k :: |old(food)| <= k < |food| ==> fresh(food[k]) && Spawned(food[k].entity) && food[k].time == 0.0
    {
      nextFood := nextFood - dt;
      while nextFood < 0.0
        invariant Valid() && fresh(Repr - old(Repr))
        invariant |old(food)| <= |food| && food[..|old(food)|] == old(food)
        invariant |food| > |old(food)| ==> |food| <= MaxFood
        invariant forall k :: |old(food)| <= k < |food| ==> fresh(food[k]) && Spawned(food[k].entity) && food[k].time == 0.0
        invariant 0.0 <= old(nextFood) - dt ==> nextFood == old(nextFood) - dt && food == old(food)
        decreases (-nextFood * 20.0).Floor
      {
        SpawnOne(root);
      }
    }

    /**
     * One turn of the food-spawn loop: the clock moves on by a random gap,
     * and a new food joins the end of the list unless there are `MaxFood`
     * already.
     */
    method SpawnOne(root: real -> real)
      requires IsRoot(root) && Valid()
      modifies this`food, this`nextFood, this`Repr
      ensures Valid() && fresh(Repr - old(Repr))
      ensures FoodSpawnMin <= nextFood - old(nextFood) < FoodSpawnMax
      ensures |old(food)| < MaxFood ==>
        |food| == |old(food)| + 1 && fresh(food[|old(food)|]) && Spawned(food[|old(food)|].entity) && food[|old(food)|].time == 0.0
      ensures |old(food)| >= MaxFood ==> food == old(food)
      ensures food[..|old(food)|] == old(food)
    {
      var gap := Range(FoodSpawnMin, FoodSpawnMax);
      nextFood := nextFood + gap;
      if |food| < MaxFood {
        var f := NewFood(root);
        AddFood(f);
      }
    }

    /** A new food joins the end of the list. */
    method AddFood(f: Food)
      requires Valid() && f.Valid() && f !in Repr
      modifies this`food, this`Repr
      ensures Valid() && food == old(food) + [f] && Repr == old(Repr) + {f}
    {
      food := food + [f];
      Repr := Repr + {f};
    }

    /** The food clock loop of `update`: every food's clock advances, clamped at 1. */
    method UpdateFood(dt: real)
      requires Valid() && 0.0 <= dt
      modifies food`time, food`parts
      ensures Valid()
      ensures forall k :: 0 <= k < |food| ==>
        food[k].entity == old(food[k].entity) && food[k].time == Min(old(food[k].time) + dt * 3.0, 1.0)
    {
      AgeEach(food, dt);
      assert forall f :: f in food ==> f.Valid();
    }

    /**
     * The feeding loop of `update`: bodies end as `FeastUpTo` says; players
     * keep everything but their size and get no lighter.
     */
    method ConsumeFood(root: real -> real)
      requires IsRoot(root) && Valid()
      modifies food`entity, players`entity
      ensures Valid()
      ensures var r := FeastUpTo(root, old(Morsels(food)), old(Bodies(players)), |food|);
        Morsels(food) == r.foods && Bodies(players) == r.bodies
    {
      ghost var fs, es := Morsels(food), Bodies(players);
      FeastEach(root, food, players);
      FeastOnlyGrowsPlayers(root, fs, es, |food|);
      KeptValid();
    }

    /** `food.retain(|e| e.size > 0.0)`: exactly the foods with size left stay, in order. */
    method RetainFood()
      requires Valid()
      modifies this`food
      ensures Valid()
      ensures food == Select(old(food), UneatenMask(old(food)))
      ensures forall f :: f in old(food) ==> (f in food <==> f.entity.size > 0.0)
      ensures forall f :: f in food ==> f in old(food)
    {
      SelectDistinct(food, UneatenMask(food));
      food := Select(food, UneatenMask(food));
    }

    /** The counters of the wave machine. */
    function WaveState(): Waves
      reads this`nextWaveTimer, this`nextWave, this`wavesFinished, this`timePlayed
    {
      Waves(nextWaveTimer, nextWave, wavesFinished, timePlayed)
    }

    /**
     * The wave machine at the end of `update`: the counters move as
     * `NextWaves` says, and when a wave is due `nextWave` enemies join the
     * end of the list.
     */
    method StepWaves(root: real -> real, dt: real, playerAlive: bool)
      requires IsRoot(root) && Valid()
      modifies this`nextWaveTimer, this`nextWave, this`wavesFinished, this`timePlayed, this`players, this`Repr, ids
      ensures Valid() && fresh(Repr - old(Repr))
      ensures WaveState() == NextWaves(old(WaveState()), Calm(old(players)), old(start) > StartDistance, playerAlive, dt)
      ensures WaveDue(old(WaveState()), Calm(old(players)), old(start) > StartDistance, dt) ==>
        |players| == |old(players)| + old(nextWave)
      ensures !WaveDue(old(WaveState()), Calm(old(players)), old(start) > StartDistance, dt) ==> players == old(players)
      ensures |old(players)| <= |players| && players[..|old(players)|] == old(players)
      ensures forall k :: |old(players)| <= k < |players| ==> fresh(players[k]) && Enemy(root, players[k], cameraPos)
    {
      var hostile := exists k :: 0 <= k < |players| && players[k].teamId != 0;
      if !hostile {
        nextWaveTimer := Min(nextWaveTimer, WavePause);
      }
      assert nextWaveTimer == CappedTimer(old(nextWaveTimer), Calm(players));
      if start > StartDistance {
        nextWaveTimer := nextWaveTimer - dt;
        if nextWaveTimer < 0.0 {
          LaunchWave(root, playerAlive);
        }
        if playerAlive {
          timePlayed := timePlayed + dt;
        }
      }
    }

    /**
     * A wave is due: the timer starts again, wave number `nextWave` spawns
     * that many enemies, and the wave counters move on.
     */
    method LaunchWave(root: real -> real, playerAlive: bool)
      requires IsRoot(root) && Valid()
      modifies this`nextWaveTimer, this`nextWave, this`wavesFinished, this`players, this`Repr, ids
      ensures Valid() && fresh(Repr - old(Repr))
      ensures nextWaveTimer == TimeBetweenWaves && nextWave == old(nextWave) + 1
      ensures wavesFinished == if playerAlive then (if old(nextWave) > 1 then old(nextWave) else 1) - 1 else old(wavesFinished)
      ensures |players| == |old(players)| + old(nextWave) && players[..|old(players)|] == old(players)
      ensures forall k :: |old(players)| <= k < |players| ==> fresh(players[k]) && Enemy(root, players[k], cameraPos)
    {
      nextWaveTimer := TimeBetweenWaves;
      SpawnWave(root, nextWave);
      if playerAlive {
        wavesFinished := (if nextWave > 1 then nextWave else 1) - 1;
      }
      nextWave := nextWave + 1;
    }

    method SpawnWave(root: real -> real, n: nat)
      requires IsRoot(root) && Valid()
      modifies this`players, this`Repr, ids
      ensures Valid() && fresh(Repr - old(Repr))
      ensures |players| == |old(players)| + n && players[..|old(players)|] == old(players)
      ensures forall k :: |old(players)| <= k < |players| ==> fresh(players[k]) && Enemy(root, players[k], cameraPos)
    {
      for i := 0 to n
        invariant Valid() && fresh(Repr - old(Repr))
        invariant |players| == |old(players)| + i && players[..|old(players)|] == old(players)
        invariant forall k :: |old(players)| <= k < |players| ==> fresh(players[k]) && Enemy(root, players[k], cameraPos)
      {
        SpawnEnemy(root);
      }
    }

    /**
     * `spawn_enemy`: new enemies are made at random spots until one lies far
     * enough from the camera; each made enemy takes an id, and the accepted
     * one joins the end of the list with an id no player had.
     */
    method SpawnEnemy(root: real -> real)
      requires IsRoot(root) && Valid()
      modifies this`players, this`Repr, ids
      ensures Valid() && fresh(Repr - old(Repr))
      ensures |players| == |old(players)| + 1 && players[..|old(players)|] == old(players)
      ensures fresh(players[|old(players)|]) && Enemy(root, players[|old(players)|], cameraPos)
      ensures old(ids.next) <= players[|old(players)|].entity.ownerId.value < ids.next
    {
      var rejected: nat :| true;
      Discard(ids, rejected);
      SpawnSpotExists(root, cameraPos);
      var pos :| SpawnSpot(root, cameraPos, pos);
      var p := new Player(ids, pos, Red, Bot, 1);
      AddPlayer(p);
    }

    /** A new player with a new id joins the end of the list. */
    method AddPlayer(p: Player)
      requires Valid() && p !in Repr && p.projectile.None?
      requires p.entity.ownerId.Some? && p.entity.ownerId.value < ids.next
      requires forall q :: q in players ==> q.entity.ownerId.value < p.entity.ownerId.value
      modifies this`players, this`Repr
      ensures Valid() && players == old(players) + [p] && Repr == old(Repr) + {p}
    {
      players := players + [p];
      Repr := Repr + {p};
    }

    /**
     * The camera step of `draw`: the camera goes to the last team-0 player,
     * and `start` grows to the largest distance from the origin of a team-0
     * player, if that is more.
     */
    method Observe(root: real -> real)
      modifies this`cameraPos, this`start
      ensures old(start) <= start
      ensures forall k :: 0 <= k < |players| && players[k].teamId == 0 ==> Len(root, players[k].entity.pos) <= start
      ensures start == old(start) ||
        exists k :: 0 <= k < |players| && players[k].teamId == 0 && start == Len(root, players[k].entity.pos)
      ensures (forall k :: 0 <= k < |players| ==> players[k].teamId != 0) ==> cameraPos == old(cameraPos)
      ensures forall k :: 0 <= k < |players| && players[k].teamId == 0 && (forall j :: k < j < |players| ==> players[j].teamId != 0) ==>
        cameraPos == players[k].entity.pos
    {
      ghost var last: int := -1;
      ghost var best: int := -1;
      for i := 0 to |players|
        invariant -1 <= last < i && -1 <= best < i
        invariant old(start) <= start
        invariant forall k :: 0 <= k < i && players[k].teamId == 0 ==> Len(root, players[k].entity.pos) <= start
        invariant best == -1 ==> start == old(start)
        invariant best >= 0 ==> players[best].teamId == 0 && start == Len(root, players[best].entity.pos)
        invariant last == -1 ==> cameraPos == old(cameraPos) && forall j :: 0 <= j < i ==> players[j].teamId != 0
        invariant last >= 0 ==>
          players[last].teamId == 0 && cameraPos == players[last].entity.pos && forall j :: last < j < i ==> players[j].teamId != 0
      {
        var p := players[i];
        if p.teamId == 0 {
          cameraPos := p.entity.pos;
          last := i;
          if start < Len(root, p.entity.pos) {
            best := i;
          }
          start := Max(start, Len(root, p.entity.pos));
        }
      }
    }

    /** Only the flying projectiles' own fields changed. */
    twostate lemma FlewValid()
      requires old(Valid()) && unchanged(this, ids) && unchanged(players) && unchanged(food)
      ensures Valid()
    {
    }

    /**
     * A change that touches no list and no counter, no player's id or held
     * projectile and no food's clock keeps the world well formed.
     */
    twostate lemma KeptValid()
      requires old(Valid()) && unchanged(this, ids)
      requires forall i :: 0 <= i < |players| ==>
        players[i].entity.ownerId == old(players[i].entity.ownerId) && players[i].projectile == old(players[i].projectile)
      requires forall i :: 0 <= i < |food| ==> food[i].time == old(food[i].time)
      ensures Valid()
    {
    }
  }
}
