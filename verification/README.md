# LifeShot simulation rules in Dafny

This project models the simulation core of LifeShot, a top-down arena game on
a toroidal world. Players are round bodies. They steer towards a target
velocity, and they charge a projectile while aiming and release it when they
stop. Projectiles shrink as they fly and eat into the players they touch.
Food spawns on a timer and feeds the players who overlap it. Enemy bots arrive
in waves, and the session counts kills, finished waves and time played.

The model follows the source file by file:

| file | what it models |
|---|---|
| `wrappers.dfy` | `Option`, `Min`, `Max`, `Abs` |
| `vectors.dfy` | 2D vectors over the reals; the square root as a parameter `root` with its defining property `IsRoot`; geng's `clamp` and `normalize` on vectors |
| `torus.dfy` | `Game::normalize` (its four while-loops) and `Game::delta_pos` |
| `entity.rs` → `entity.dfy` | `Entity` as a value: mass, `add_mass`, `update`, `collide`, `hit`, `consume` |
| `projectile.rs` → `projectile.dfy` | `Projectile` as a class: its spark buffer, emitted into, aged and pruned in `update` |
| `food.rs` → `food.dfy` | `Food` as a class: the parts that carry its mass, and its clamped animation clock |
| `player/keyboard.rs` → `controls.dfy` | `Action`, what a controller sees, and the keyboard controller with the key states as booleans |
| `bot.rs` → `bot.dfy` | the bot controller as a pure function, with the nearest-food and nearest-enemy choice and the shoot rule |
| `player/mod.rs` → `player.dfy` | `Player` as a class: the id counter, `new`, `act` and the per-tick `update` |
| `rounds.dfy` | the pairwise passes of the tick as value-level rules: the visit order of the `split_at_mut` loops, collide, the projectile hits and feeding |
| `passes.dfy` | the loops of the tick over the lists of objects, each proved against its rule in `rounds.dfy` |
| `main.rs` → `game.dfy` | `Game` as a class: `new`, `reset`, `spawn_enemy`, every phase of `update` in source order, the wave machine, and the `start` step of `draw` |

The square root is not defined over Dafny's reals. Every operation that
needs it takes a function `root: real -> real`, and its contract requires
`IsRoot(root)`: on non-negative inputs the result is non-negative and squares
back to the input. Lengths, `normalize()` on vectors and the size of a death
food are all stated in terms of that function.

Each random draw is an arbitrary value in the range the source draws it
from: `Games.Draw` for the uniform numbers in `[0, 1)` behind the spawn
loop's `gen_range` calls (the food clock, and a new food's position and
size), and, elsewhere, spark velocities and sizes, the directions and
shades of food parts, the number of enemies `spawn_enemy` rejects, and the
position of the enemy it finally accepts, which is any spot far enough from
the camera (`SpawnSpot`).

## Model

| member | source | states |
|---|---|---|
| Vectors.Clamp | src/player/mod.rs:89-94 | the clamped vector is never longer than `abs(max)`; a vector within `max` is unchanged; a longer one is brought to length exactly `max`; a longer non-zero one is scaled along its own direction, `r · len(v) == v · max` |
| Vectors.Unit | src/player/mod.rs:115 | a vector of non-zero length becomes a unit vector along it, `n · len(v) == v`; the zero vector stays zero |
| Torus.WrapDown | src/main.rs:144-149 | the downward loop ends at or below `W`; it ends strictly above `-W` if it ran at all, and it is the identity otherwise |
| Torus.WrapUp | src/main.rs:150-155 | the upward loop ends at or above `-W`; it ends strictly below `W` if it ran at all, and it is the identity otherwise |
| Torus.Normalized | src/main.rs:143-157 | both components of `normalize(v)` lie in `[-W, W]` |
| Torus.DeltaPos | src/main.rs:138-141 | the toroidal displacement lies in the world square |
| Torus.Normalize | src/main.rs:143-157 | the four while-loops compute `Normalized(v)` |
| Torus.WrapDownShift | src/main.rs:144-149 | the downward loop subtracts a whole number of periods `2W` |
| Torus.WrapUpShift | src/main.rs:150-155 | the upward loop adds a whole number of periods `2W` |
| Torus.WrapShift | src/main.rs:143-157 | one coordinate of `normalize` moves by a whole number of periods |
| Torus.WrapInside | src/main.rs:143-157 | a coordinate already in `[-W, W]` is left alone |
| Torus.WrapOfShift | src/main.rs:143-157 | a coordinate strictly inside the world is the only representative of its class modulo `2W` |
| Torus.NormalizedInside | src/main.rs:143-157 | `normalize` is the identity on the world square |
| Torus.NormalizedIdempotent | src/main.rs:143-157 | `normalize(normalize(v)) == normalize(v)` |
| Torus.NormalizedShift | src/main.rs:143-157 | each component of `normalize(v)` differs from `v`'s by an integer multiple of `2W` |
| Entities.Entity.Mass | src/entity.rs:19-21 | mass is never negative |
| Entities.Entity.AddMass | src/entity.rs:22-25 | the new mass is `max(0, mass + delta)`; the size is never negative; nothing but the size changes |
| Entities.Entity.Update | src/entity.rs:26-29 | the position becomes `normalize(pos + vel * dt)` and lies in the world; velocity, size, owner and colour are unchanged |
| Entities.Penetration | src/entity.rs:31-32 | the overlap is capped at both sizes, is at most the uncapped overlap, and equals one of the three |
| Entities.Weights | src/entity.rs:35-39 | the inverse-mass weights are positive and sum to one; the heavier body gets the smaller weight |
| Entities.Collide | src/entity.rs:30-43 | only positions change; with no overlap nothing changes; with overlap the bodies separate by exactly the penetration along the contact normal |
| Entities.CollideSplitsPush | src/entity.rs:34-41 | the two pushes along the normal are shares of the penetration that sum to it; the heavier body moves the shorter way |
| Entities.Hit | src/entity.rs:44-56 | reports a hit exactly when the capped overlap is positive; a miss changes nothing; a hit cuts the target's size by the penetration and the attacker's mass by the target's lost mass over `k`, clamped at zero, leaving the attacker a size of zero or more |
| Entities.HitShrinksBoth | src/entity.rs:47-51 | a hit strictly shrinks the target, never below zero, and never makes the attacker heavier |
| Entities.Consume | src/entity.rs:57-66 | no overlap changes nothing; with overlap the target's size drops by the penetration and the consumer's mass grows by `k` times the target's loss, and the consumer's size stays zero or more |
| Entities.ConsumeTransfersMass | src/entity.rs:60-64 | consuming strictly grows the consumer by exactly `k` times what the target lost, and leaves the target at size zero or more |
| Projectiles.AgeSpark | src/projectile.rs:72-76 | a spark ages by `dt`, moves like an entity, and its alpha becomes `(1 - age / SPARK_LIFE) * 0.5` |
| Projectiles.Aged | src/projectile.rs:72-76 | every spark in the buffer is aged once, in place |
| Projectiles.Survivors | src/projectile.rs:77 | every retained spark is one of the buffer's and younger than `SPARK_LIFE`, and every spark of the buffer younger than that is retained |
| Projectiles.Projectile.constructor | src/projectile.rs:29-43 | a new projectile has the given owner and colour, size zero, no sparks and no hit |
| Projectiles.Projectile.Update | src/projectile.rs:56-78 | the body moves and keeps its size; sparks are emitted only while the body has size; the clock drains by `dt * mass` and gains `1 / SPARK_FREQ` per spark; a body with size ends with the clock at zero or more; the buffer is the old sparks plus the new ones, aged, then filtered; every spark left is younger than `SPARK_LIFE`; afterwards `alive` holds whenever the body has size, and without size exactly when an old spark is still younger than `SPARK_LIFE` after `dt` |
| Projectiles.Fading | src/projectile.rs:45-77 | after one step of ageing and the `retain`, some spark is left exactly when one of them was younger than `SPARK_LIFE` by more than the step, which is when a projectile without size stays `alive` |
| Projectiles.Projectile.EmitSparks | src/projectile.rs:58-71 | the emission loop appends only fresh-looking sparks, none for a body without size, and stops with the clock at zero or more when the body has size |
| Projectiles.Projectile.NewSpark | src/projectile.rs:61-70 | an emitted spark has no owner, age zero, the projectile's position and colour mixed with white, a speed below `SPARK_MAX_SPEED`, and a size in `[size / 2, size]` |
| Projectiles.Projectile.AgeSparks | src/projectile.rs:72-77 | the buffer becomes the survivors of the aged buffer; everything else is unchanged |
| Foods.PartCount | src/food.rs:26 | the part count is the ceiling of `size² / PREFERRED_MASS`, and zero only for size zero |
| Foods.PartsConserveMass | src/food.rs:35-52 | the parts of a food carry exactly the food's mass |
| Foods.Spread | src/food.rs:61 | the spread `1 - (1 - t)²` lies in `[0, 1]` for a clock in `[0, 1]`, and is 0 at 0 and 1 at 1 |
| Foods.SpreadMonotone | src/food.rs:58-61 | the spread grows with the clock |
| Foods.FullySpread | src/food.rs:59-62 | at clock 1 each part sits at its full offset, scaled by the size |
| Foods.Food.constructor | src/food.rs:25-55 | a new food is a green body at rest with no owner, at the given position and size, its clock at zero and its parts as `PartsOf` describes |
| Foods.Food.Update | src/food.rs:57-63 | the clock becomes `min(time + 3 dt, 1)`, never exceeds 1 and never goes back; each part moves to `pos + size * offset * spread`; the body is unchanged |
| Controls.Axis | src/player/keyboard.rs:19-31 | a pair of opposite keys gives 1, -1 or 0, and 0 exactly when both or neither are pressed |
| Controls.KeyboardAction | src/player/keyboard.rs:18-44 | each target component is in {-1, 0, 1}; opposite keys cancel; the action aims at the mouse exactly when the left button is pressed |
| Controls.KeyboardAct | src/player/keyboard.rs:18-44 | the four key checks, run in source order, compute `KeyboardAction` |
| Bots.Find | src/bot.rs:12-16 | the result is the first player with the id, and it is absent exactly when no player has it |
| Bots.Others | src/bot.rs:23-27 | the filtered list holds exactly the players with another id |
| Bots.NearestFrom | src/bot.rs:17-32 | the `min_by` fold ends at a nearest target, and at the first of several equally near ones |
| Bots.Nearest | src/bot.rs:17-32 | `min_by` on toroidal distance picks the first nearest target |
| Bots.HitTime | src/bot.rs:37 | the time to reach the enemy is never negative |
| Bots.ShootRule | src/bot.rs:35-51 | holding a projectile, the bot releases exactly when it would arrive bigger than `SHOT_HIT_SIZE` and otherwise aims where the enemy will be; not holding one, it aims at the enemy unless smaller than `MIN_SIZE` |
| Bots.BotAct | src/bot.rs:11-53 | the bot steers by raw difference towards a nearest food, or towards the origin without food; with no other player it does not shoot; otherwise it applies the shoot rule to a nearest player with another id, whatever its team |
| Players.IdSource.constructor | src/player/mod.rs:67 | the id counter starts at 1 |
| Players.IdSource.Take | src/player/mod.rs:70 | taking an id returns the counter's value and increments it, so ids are never reused |
| Players.TargetVelocity | src/player/mod.rs:88-92 | the target speed is at most `MAX_SPEED`, and at most `MAX_AIMING_SPEED` while aiming |
| Players.Player.constructor | src/player/mod.rs:61-84 | a new player has the next id, `INITIAL_SIZE`, zero velocity, no projectile and the default action |
| Players.Player.Act | src/player/mod.rs:155-161 | the stored action is what the player's controller returns for its own id |
| Players.Player.Update | src/player/mod.rs:85-130 | the body steers and moves; while aiming, nothing is released and a projectile is held, either the old one, with its owner, colour and hit flag kept, or a new one with the player's id, and it is charged and placed as `Aimed` says, with the player's and the projectile's sizes zero or more, so each is fixed by its mass; otherwise the held projectile, moved and with its hit flag kept, is released and the player keeps its size; a held projectile's sparks are aged as its own `update` says |
| Players.Player.Steer | src/player/mod.rs:86-95 | `prev_size` and `time` are recorded, and the body is `Steered` |
| Players.Player.AgeHeld | src/player/mod.rs:96-98 | a held projectile moves, keeps its mass and hit flag, emits only fresh-looking sparks, and its buffer is the old sparks plus the new ones, aged, then filtered, so every spark left is younger than `SPARK_LIFE` |
| Players.Player.Aim | src/player/mod.rs:99-118 | a projectile is held afterwards, either the old one with its owner, colour, sparks and hit flag kept, or a new one with the player's id and colour; it is placed, aimed and charged as `Aimed` says; the player's and the projectile's new sizes are zero or more, the roots of their clamped masses |
| Players.SteeringBoundsAcceleration | src/player/mod.rs:93-94 | per tick the velocity changes by a vector no longer than `ACCELERATION * dt` |
| Players.SteeringAtTargetKeepsVelocity | src/player/mod.rs:93-94 | a player already at its target velocity keeps it |
| Players.AimedWithinReach | src/player/mod.rs:114-117 | the held projectile sits within the player's size of its centre; aiming never adds mass to the player; it never takes mass from the projectile |
| Rounds.VisitsOf | src/main.rs:306-311 | the visits with `cur == i` are `(0, i) .. (i - 1, i)`, in order |
| Rounds.AllVisits | src/main.rs:306-312 | every visit of the pair loop names two distinct in-range elements, the earlier first |
| Rounds.OnceInRow | src/main.rs:309-311 | the row for `cur` visits each earlier element once |
| Rounds.VisitsExactlyOnce | src/main.rs:306-312 | the pair loop visits every unordered pair exactly once, and never in reverse |
| Rounds.CollideAt | src/main.rs:310 | one collide step keeps the number of bodies |
| Rounds.CollideAll | src/main.rs:306-312 | the collide pass keeps the number of bodies |
| Rounds.CollideMovesOnly | src/main.rs:306-312 | the collide pass only moves bodies: sizes, velocities, owners and colours are kept |
| Rounds.ClashAt | src/main.rs:326 | one projectile-on-projectile hit keeps the number of bodies |
| Rounds.ClashAll | src/main.rs:322-328 | the projectile-on-projectile pass keeps the number of bodies |
| Rounds.ClashNeverFeeds | src/main.rs:322-328 | in the projectile-on-projectile pass no projectile gains mass and none changes owner |
| Rounds.VolleyUpTo | src/main.rs:314-320 | a projectile's pass over the players keeps its owner and leaves the players it has not reached untouched |
| Rounds.VolleySparesOwner | src/main.rs:314-320 | a projectile never touches a player with its own owner id; no player changes owner or gains mass; the projectile never gains mass |
| Rounds.BarrageUpTo | src/main.rs:313-321 | the projectile-to-player pass yields one body and one hit flag per projectile, and one body per player |
| Rounds.BarrageSparesOwner | src/main.rs:313-321 | a player is untouched by the whole pass when every projectile shares its owner id; no player changes owner or gains mass |
| Rounds.FeedUpTo | src/main.rs:348-350 | one food's pass leaves the players it has not reached untouched |
| Rounds.FeedOnlyResizes | src/main.rs:348-350 | feeding changes only sizes; the food never grows and never drops below zero; no player gets lighter |
| Rounds.FeedTransfersMass | src/main.rs:348-350 | the players gain exactly `FOOD_K` times the mass the food loses |
| Rounds.FeastUpTo | src/main.rs:347-354 | the feeding pass yields one body per food and one per player |
| Rounds.FeastOnlyShrinksFood | src/main.rs:347-354 | over the whole feeding pass no food grows or ends below size zero |
| Rounds.FeastOnlyGrowsPlayers | src/main.rs:347-354 | over the whole feeding pass players change only in size and get no lighter |
| Rounds.FeastTransfersMass | src/main.rs:347-354 | over the whole feeding pass the players gain exactly `FOOD_K` times the mass the foods lose |
| Passes.Select | src/main.rs:300 | `retain` keeps every flagged element and only flagged elements |
| Passes.SelectDistinct | src/main.rs:300 | `retain` on a list without repetitions gives a list without repetitions |
| Passes.LivingMask | src/main.rs:300 | a player is kept exactly when its size is positive |
| Passes.FlyingMask | src/main.rs:305 | a projectile is kept exactly when it is alive |
| Passes.UneatenMask | src/main.rs:355 | a food is kept exactly when its size is positive |
| Passes.Decayed | src/main.rs:302-303 | a flying projectile's size drops by `PROJECTILE_DEATH_SPEED * dt`, then only its position changes |
| Passes.Lasting | src/main.rs:301-305 | a projectile is alive after one tick of flight exactly when it has size left after the decay or one of its old sparks is still younger than `SPARK_LIFE` after `dt` |
| Passes.DecayEach | src/main.rs:301-304 | every flying projectile decays by `PROJECTILE_DEATH_SPEED * dt` and moves (`Decays`) and keeps its hit flag; its spark buffer becomes the survivors of its old sparks and the ones it emitted, aged (`Burned`); it is alive afterwards exactly when it has size left or an old spark lingers (`Lasting`) |
| Passes.DecayOne | src/main.rs:302-303 | one turn of the projectile loop advances the loop invariant by one projectile |
| Passes.CollideEach | src/main.rs:306-312 | the nested `split_at_mut` loop leaves the bodies as `CollideAll` over every visit says |
| Passes.CollidePair | src/main.rs:310 | one `collide(prev, cur)` on the objects is one `CollideAt` step on their bodies |
| Passes.ClashEach | src/main.rs:322-328 | the nested loop leaves the projectile bodies as `ClashAll` over every visit says |
| Passes.ClashPair | src/main.rs:326 | one `cur.hit(prev, 1.0)` on the objects is one `ClashAt` step on their bodies |
| Passes.BarrageEach | src/main.rs:313-321 | the projectile-to-player loop leaves the bodies and hit flags as `BarrageUpTo` says; a flag once set stays set |
| Passes.Salvo | src/main.rs:314-320 | one projectile's inner loop advances the pass invariant by one projectile |
| Passes.Volley | src/main.rs:314-320 | one projectile's inner loop leaves its body, its flag and the players' bodies as `VolleyUpTo` says |
| Passes.Strike | src/main.rs:315-319 | one step of the inner loop is one step of `VolleyUpTo`, and a landed hit sets the flag |
| Passes.AgeEach | src/main.rs:344-346 | every food's clock advances by `3 dt`, clamped at 1; its body is unchanged |
| Passes.FeastEach | src/main.rs:347-354 | the feeding loop leaves food and player bodies as `FeastUpTo` says |
| Passes.Course | src/main.rs:348-350 | one food's inner loop advances the feeding invariant by one food |
| Passes.Feed | src/main.rs:348-350 | one food's inner loop leaves its body and the players' as `FeedUpTo` says |
| Passes.Bite | src/main.rs:349 | one `consume` advances the inner feeding invariant by one player |
| Games.ViewOf | src/player/mod.rs:155-161 | a controller sees a player's id, position, size and whether it holds a projectile |
| Games.Snapshot | src/bot.rs:17-22 | a controller sees every player and every food position, in order |
| Games.ActEach | src/main.rs:270-275 | every player stores its controller's action for the same world view; bodies and held projectiles are unchanged |
| Games.DeathFoodSize | src/main.rs:290-293 | a death food has positive size and feeds back exactly the mass of a new player: `FOOD_K · size² = INITIAL_SIZE²` |
| Games.ProgressStep | src/main.rs:282-299 | one more player's round extends the invariant of the player loop by that player |
| Games.FlownStep | src/main.rs:286-288 | a released projectile joins the end of the flying list, in player order |
| Games.BuriedStep | src/main.rs:289-293 | a dead player's food joins the end of the food list, in player order |
| Games.CountedStep | src/main.rs:295-297 | a hostile death is counted when the local player is alive |
| Games.StepPlayer | src/main.rs:283-288 | a player decays once the game has started, then updates; it keeps its id and action; it holds a projectile exactly when it aims; it releases its old projectile exactly when it does not aim; its body is steered from the decayed body as `Steered` says, its size moves as `Moved` says (so an aiming player's new size is the root of its clamped mass, which decides whether it dies), a projectile it holds is placed and charged as `Aimed` says, and a released projectile has had its own `update` and keeps its hit flag |
| Games.PlayerRound | src/main.rs:283-288 | the player round as `Step` sees it: id and action kept, the size moves as `Moved` says, never below zero while aiming, a projectile is held exactly when aiming and is the old one or a new one, and the old one is let go exactly when not aiming |
| Games.AimingDeath | src/main.rs:283-289 | an aiming player is left with no size, and so dies in its round, exactly when the aiming cost `PROJECTILE_COST_SPEED * dt` is at least the mass the decay left it |
| Games.FourthPowerBelowOne | src/main.rs:339 | `u⁴` of a `u` in `[0, 1)` is in `[0, 1)` |
| Games.Between | src/main.rs:338-340 | a fraction in `[0, 1)` of the way from `low` to `high` lies in `[low, high)` |
| Games.NewFood | src/main.rs:333-341 | a spawned food is at rest in the world square with no owner and a size in `[0.1, 0.5)`, its clock is zero, and its parts carry its mass |
| Games.Draw | src/main.rs:339 | a random draw lies in `[0, 1)` |
| Games.Range | src/main.rs:331 | `gen_range(low, high)` lies in `[low, high)` |
| Games.SpawnSpotExists | src/main.rs:248-263 | for every camera position there is a spot that `spawn_enemy` accepts |
| Games.Discard | src/main.rs:249-258 | each rejected enemy uses up one id |
| Games.WaveCount | src/main.rs:357-375 | a wave is launched exactly when due, and then the wave number grows by one and the timer restarts at `TIME_BETWEEN_WAVES`; time played grows by `dt` exactly when the game has started and the local player is alive |
| Games.TimerBounds | src/main.rs:357-375 | once the game has started the timer is never left negative; with no hostile player and no wave launched it is at most `WAVE_PAUSE` |
| Games.FinishedBehind | src/main.rs:367-370 | the number of finished waves stays below the next wave's number and never goes down; a wave launched while the local player is alive sets it to `max(next_wave, 1) - 1`, and nothing else changes it |
| Games.Game.constructor | src/main.rs:177-246 | a new game is well formed and starts as `reset` leaves it, with the camera at the origin |
| Games.Game.Reset | src/main.rs:159-175 | after `reset` there is exactly one player, the local one in team 0, at the origin with the next id; there is no food and no projectile; the first wave is `WAVE_PAUSE` away and every counter is zero |
| Games.Game.ResetCounters | src/main.rs:169-174 | the wave timer, the wave number and the session counters are reset |
| Games.Game.ResetWorld | src/main.rs:160-168 | the lists hold only the new local player |
| Games.Game.View | src/main.rs:270-271 | the controllers' view lists every player and every food position, in order |
| Games.Game.ActAll | src/main.rs:269-275 | every player stores its controller's action for the world `seen` before the loop; bodies and held projectiles are unchanged; `player_alive` holds exactly when a team-0 player is there |
| Games.Game.UpdatePlayers | src/main.rs:282-299 | after the player loop every player keeps its id and action and holds a projectile exactly when it aims; the released projectiles join the flying list in player order; one death food per dead player joins the food list in player order; kills grow by the hostile deaths only if the local player was alive |
| Games.Game.UpdateRounds | src/main.rs:282-299 | the player loop keeps the world well formed and leaves it as the loop invariant says for every player |
| Games.Game.UpdatedBodies | src/main.rs:282-299 | once every player has had its round, the bodies are those the rounds left |
| Games.Game.StartsUpdated | src/main.rs:282 | before the player loop the invariant holds with no round done |
| Games.Game.UpdatedAll | src/main.rs:282-299 | the invariant for every player restates as the loop's outcome on the whole list |
| Games.Game.UpdateOne | src/main.rs:283-298 | one player's round keeps the world well formed and extends the loop invariant by that player |
| Games.Game.StepWorld | src/main.rs:283-298 | one player's round changes the world only as `Stepped` allows |
| Games.Game.SteppedNow | src/main.rs:283-298 | what one player's round leaves, read against the world `w` before it, is a change `Stepped` allows |
| Games.Game.Step | src/main.rs:283-298 | one player's round: its id and action are kept; its size moves as `Moved` says (the decay once the game has started, then the aiming cost, which leaves a size of zero or more, so whether it dies is decided); it holds a projectile exactly when it aims; a released projectile flies last; a dead player leaves a death food at its position; a hostile death counts while the local player is alive |
| Games.Game.Turn | src/main.rs:283-298 | one player's round keeps the world well formed and changes the flying list, the food list, the kill count and the player's hold as `Step` says |
| Games.Game.Launch | src/main.rs:286-288 | a released projectile joins the end of the flying list |
| Games.Game.Bury | src/main.rs:289-298 | a player with no size leaves a food of the death size where it died, and a hostile one counts as a kill while the local player is alive |
| Games.Game.StepKeepsValid | src/main.rs:283-298 | one player's round keeps the world well formed: every object owned, each projectile held by at most one player and never both held and flying, ids unique and issued by the counter, food clocks in `[0, 1]` |
| Games.Game.Tick | src/main.rs:268-376 | a tick keeps the world well formed; it ends with the food clock at zero or more and only food with size left; the wave counters move as `NextWaves` says from the players the wave machine sees, with `player_alive` as it was before the tick; kills and the wave number never go down; enemies are only added after those players |
| Games.Game.Simulate | src/main.rs:268-355 | the phases before the wave machine keep the world well formed, leave the food clock at zero or more and only food with size left, report whether a team-0 player was there, never lower the kill count and leave the wave counters and `start` alone |
| Games.Game.MovePlayers | src/main.rs:269-300 | `player_alive` is whether a team-0 player was there before the tick; after the retain every player has size left; kills never go down; the wave counters and `start` are unchanged |
| Games.Game.SettlePlayers | src/main.rs:282-300 | the player loop and its retain keep the world well formed, never lower the kill count and leave only players with size left |
| Games.Game.AdvancePlayers | src/main.rs:282-300 | the player loop and its retain: the released projectiles join the flying list in player order; one death food per dead player joins the food list in player order, as `Remains` of their graves; kills grow by the hostile deaths only if the local player was alive; exactly the players with size left stay, in order |
| Games.Game.MoveProjectiles | src/main.rs:301-305 | every flying projectile decays by `PROJECTILE_DEATH_SPEED * dt` and moves (`Decays`), keeping its hit flag, and its sparks age as its own `update` says (`Burned`); then exactly those with size left or an old spark that lingers stay, in order (`Lasting`), so every flying projectile is alive |
| Games.Game.FlyProjectiles | src/main.rs:301-305 | the projectile loop and its retain keep the world well formed |
| Games.Game.Contacts | src/main.rs:306-328 | the three pair passes in order: player bodies are first collided over every unordered pair, then hit by every flying projectile with strength `PROJECTILE_STRENGTH`; projectile bodies are then hit pairwise; a projectile's hit flag is set once it lands a hit and never cleared |
| Games.Game.ResolveContacts | src/main.rs:306-328 | the three pair passes keep the world well formed |
| Games.Game.TendFood | src/main.rs:329-355 | the food clock ends at zero or more, and a clock that did not run out spawns nothing; food is only appended before the feeding, never past `MAX_FOOD`, and every new food is fresh; the food left afterwards was there or spawned, and has size left |
| Games.Game.FeedPlayers | src/main.rs:344-354 | the food clocks and the feeding keep the world well formed |
| Games.Game.RefreshFood | src/main.rs:329-355 | the food phases keep the world well formed and end with the food clock at zero or more and only food with size left |
| Games.Game.RetainPlayers | src/main.rs:300 | exactly the players with size left stay, in order |
| Games.Game.DecayProjectiles | src/main.rs:301-304 | the projectile loop keeps the world well formed; every flying projectile decays and moves (`Decays`), keeps its hit flag, and its sparks age as its own `update` says (`Burned`); it is alive afterwards exactly when it has size left or an old spark lingers (`Lasting`) |
| Games.Game.RetainProjectiles | src/main.rs:305 | exactly the live projectiles stay, in order; no projectile's body, hit flag or sparks change |
| Games.Game.CollidePlayers | src/main.rs:306-312 | player bodies end as `CollideAll` over every unordered pair says |
| Games.Game.HitPlayers | src/main.rs:313-321 | bodies and hit flags end as `BarrageUpTo` says, with strength `PROJECTILE_STRENGTH` |
| Games.Game.HitProjectiles | src/main.rs:322-328 | projectile bodies end as `ClashAll` over every unordered pair says |
| Games.Game.SpawnFood | src/main.rs:329-343 | the spawn loop ends with the clock at zero or more; a clock that did not run out spawns nothing; food is only appended, never past `MAX_FOOD`, and every new food is a spawned one |
| Games.Game.SpawnOne | src/main.rs:331-342 | one turn moves the clock by a gap in `[0.05, 0.1)`, and appends one spawned food exactly when fewer than `MAX_FOOD` are there |
| Games.Game.AddFood | src/main.rs:333 | a new food joins the end of the list and the world stays well formed |
| Games.Game.UpdateFood | src/main.rs:344-346 | every food's clock advances by `3 dt`, clamped at 1 |
| Games.Game.ConsumeFood | src/main.rs:347-354 | food and player bodies end as `FeastUpTo` says |
| Games.Game.RetainFood | src/main.rs:355 | exactly the foods with size left stay, in order |
| Games.Game.StepWaves | src/main.rs:357-375 | the wave counters move as `NextWaves` says; a due wave appends `next_wave` fresh enemies at accepted spots, and otherwise the players are unchanged |
| Games.Game.LaunchWave | src/main.rs:362-371 | the timer restarts, `next_wave` enemies join the end of the list, `waves_finished` becomes `max(next_wave, 1) - 1` if the local player is alive, and `next_wave` grows by one |
| Games.Game.SpawnWave | src/main.rs:364-366 | `n` fresh enemies join the end of the list |
| Games.Game.SpawnEnemy | src/main.rs:248-264 | one fresh red bot of team 1 joins the end of the list, at a spot far enough from the camera, with an id no player had |
| Games.Game.AddPlayer | src/main.rs:260 | a new player joins the end of the list and the world stays well formed |
| Games.Game.Observe | src/main.rs:378-388 | the camera follows the last team-0 player; `start` never decreases, and it becomes the largest distance from the origin of a team-0 player if that is larger |
| Games.Game.KeptValid | src/main.rs:306-355 | a pass that changes no list, counter, id, held projectile or food clock keeps the world well formed (the same ownership invariant) |

## Left out

- Rendering: every `draw` method, the particle and vertex buffers, the shader, the fonts and the UI text. These are graphics I/O. Only the camera and `start` step of `Game::draw` is modelled (`Games.Game.Observe`).
- Audio: `Sound`, `play_sound`, the music, the aim sound of a player and its `Drop`, and the `prev_alive` cell that `Projectile::alive` uses only to trigger a sound. This is browser interop.
- The background particles of `Game::new` and `update`, and the colour `mix` used only for drawing, are cosmetic. `Entities.Mix` is kept because projectile and spark colours are built with it.
- `handle_event`, fullscreen toggling, `main` and the framework wiring are not modelled. `Reset` is modelled, but the key press that triggers it is not.
- Floating point: all arithmetic is on exact reals, with no `f32` rounding, NaN or infinity. The normalised zero vector is the zero vector here, where `f32` would give NaN. Likewise `Vectors.Clamp` returns the zero vector unchanged for a negative `max`, where geng divides zero by zero and gives NaN; a negative `max` is reachable, because a decaying player's size can drop below zero before the retain (src/main.rs:284-285) and `Player::update` clamps by that size (src/player/mod.rs:114).
- The square root is a parameter `root` with its defining property, not a computed function.
- The `unsafe` global `CAMERA_POS` is used only by the sound volume, so it is left out. The camera is the field `cameraPos`.
- `random_circle_point` is modelled by the property of its result, a point inside the unit circle. Its rejection loop is not modelled.
- Games.Game.SpawnEnemy: the rejection loop of `spawn_enemy` is not modelled step by step. The model takes some number of rejected enemies, each of which uses up one id, and then an accepted spot. Termination of the loop is not modelled.
- Entities.Entity.Update: `Entity` is embedded by value in its owners, so its in-place methods are functions that return the updated entity or pair of entities.
- Players.Player.Act: the controller is a two-case datatype (keyboard or bot), not a boxed trait object behind a `RefCell`. The keyboard's window polling becomes the booleans of `Keys`.
- `Player::update` and `Projectile::alive` take an asset-store parameter that their callers in `src/main.rs` do not pass. It only feeds sounds, and the model follows the callers.
- Games.Game.ActAll: `player_alive` is computed after the act loop instead of inside it. Team ids never change, so the value is the same.
- Games.Game.ActAll: every controller sees the world as it was before the act loop. In the source each controller reads the game during the loop, but acting writes only the action cell, which no controller reads.
- Games.Game.Tick: does not state that every remaining player has size left, or that every remaining projectile is alive. The projectile hit passes run after those retains, so a player or projectile hit to size zero stays in the list until the next tick. `MovePlayers` and `MoveProjectiles` state the property right after each retain.
- Games.Game.Tick: requires `dt >= 0`, since the argument is a frame duration.
- Games.Game.Tick: states the per-phase results (which projectiles fly, which food is left, how the pair passes change bodies) only through the phase members `ActAll`, `AdvancePlayers`, `MoveProjectiles`, `Contacts`, `TendFood` and `StepWaves`, not composed into one postcondition. Composing them exceeds the verifier's resource bound, so the tick calls views of the phases that keep what the wave machine needs.
- Games.Game.Simulate: states only what the tick needs of the phases before the wave machine; the phase results are on `ActAll`, `AdvancePlayers`, `MoveProjectiles`, `Contacts` and `TendFood`.
- Games.Game.MovePlayers: does not repeat the actions `ActAll` stores or the lists `AdvancePlayers` produces; it keeps only what the tick needs, for the same resource reason.
- Games.Game.SettlePlayers: the tick's view of `AdvancePlayers`; it keeps only well-formedness, the kill bound and the sizes.
- Games.Game.FlyProjectiles: the tick's view of `MoveProjectiles`; it keeps only well-formedness.
- Games.Game.ResolveContacts: the tick's view of `Contacts`; it keeps only well-formedness.
- Games.Game.RefreshFood: the tick's view of `TendFood`; it keeps only well-formedness, the food clock bound and the sizes.
- Games.Game.AdvancePlayers: does not repeat that every player keeps its id and action and holds a projectile exactly when it aims; `UpdatePlayers` states that for the loop, and the retain does not touch players.
- Games.Game.AdvancePlayers: does not state how each body changed in the player loop (decay, steering, aiming cost); that is stated one player at a time on `StepPlayer` and `Step`.
- Games.Game.UpdatePlayers: relates the new bodies to the old ones only through their ids. The per-player body change (`Moved`, `Steered`, `Aimed`) is stated on `StepPlayer` and `Step` but is not carried through the loop invariant (`Behind`, `Turned`), because carrying it puts `UpdateRounds` over the verifier's resource bound.
- Games.Game.Step: states only the size part of the body change (`Moved`); the steering of the body and the placement of a held projectile (`Steered`, `Aimed`) are stated on `StepPlayer`, because carrying them up exceeds the resource bound.
- Games.PlayerRound: `Step`'s view of `StepPlayer`; it keeps the size part of the body change and what the player holds and lets go of.
- Games.Game.Turn: `StepWorld`'s view of `Step`; it keeps what the round does to the lists, the kill count and the player's hold, without the body change.
- Games.Game.FeedPlayers: `TendFood`'s view of `UpdateFood` and `ConsumeFood`; it keeps only well-formedness.
- Games.Game.TendFood: does not repeat the clock update of `UpdateFood` or the feeding of `ConsumeFood` (`FeastUpTo`); each is stated on its own member.
- Player ids, `kills`, `next_wave` and `waves_finished` are unbounded naturals. The `usize` overflow of the source is not modelled.
- Foods.Food.constructor: the random direction and shade of each part are arbitrary values within the source's ranges.
