/** The game's whole state as one value, and what each callback of the component
    does to it: a frame of `update` (Game/src/App.jsx, lines 59-104) behind the
    `gameOver` guard of `gameLoop` (line 157), a tick of the one-second timer
    (lines 165-173) and `handleRestart` (lines 182-190). */
module Simulation {
  import opened Sequences
  import opened Entities
  import opened Collision

  /** The aircraft position, the local `shootCooldown` of the game-loop effect, the
      two entity arrays, and the three pieces of React state. */
  datatype World = World(
    aircraftX: int,
    aircraftY: int,
    cooldown: int,
    bullets: seq<Bullet>,
    bubbles: seq<Bubble>,
    score: nat,
    timeLeft: int,
    gameOver: bool)

  /** The state when the component mounts: the aircraft centred at (430, 550), a
      fresh cooldown, no bullets or bubbles, score 0 and 60 seconds to go. */
  function Initial(): (w: World)
    ensures w.aircraftX == 430 && w.aircraftY == 550 && w.cooldown == 0
    ensures w.bullets == [] && w.bubbles == []
    ensures w.score == 0 && w.timeLeft == 60 && !w.gameOver
    ensures Invariant(w)
  {
    World(START_X, START_Y, 0, [], [], 0, GAME_TIME, false)
  }

  // ---------------------------------------------------------------- one frame

  /** The shot of one frame, appended at the aircraft's nose when fire is held and
      the cooldown has run out. */
  function Shoot(bullets: seq<Bullet>, x: int, y: int, fire: bool, cooldown: int): (r: seq<Bullet>)
    ensures Fires(fire, cooldown) ==> r == bullets + [Bullet((x + 16) as real, (y - 8) as real)]
    ensures !Fires(fire, cooldown) ==> r == bullets
  {
    if Fires(fire, cooldown) then bullets + [Muzzle(x, y)] else bullets
  }

  /** `bullets.forEach((b) => (b.y -= 12))`. */
  function RiseAll(bullets: seq<Bullet>): (r: seq<Bullet>)
    ensures |r| == |bullets|
    ensures forall i :: 0 <= i < |r| ==> r[i].x == bullets[i].x && r[i].y == bullets[i].y - 12.0
  {
    seq(|bullets|, i requires 0 <= i < |bullets| => Rise(bullets[i]))
  }

  /** `bubbles.forEach((bubble) => (bubble.y += bubble.speed))`. */
  function FallAll(bubbles: seq<Bubble>): (r: seq<Bubble>)
    ensures |r| == |bubbles|
    ensures forall i :: 0 <= i < |r| ==> r[i] == Fall(bubbles[i])
  {
    seq(|bubbles|, i requires 0 <= i < |bubbles| => Fall(bubbles[i]))
  }

  /** Lines 78-79: every bullet rises, then those whose tail left the top are
      dropped; no bullet is added and every survivor is still on screen. */
  function StepBullets(bullets: seq<Bullet>): (r: seq<Bullet>)
    ensures |r| <= |bullets|
    ensures forall b :: b in r ==> b.y + 16.0 > 0.0
  {
    Filter(RiseAll(bullets), BulletOnScreen)
  }

  /** Lines 82-83: every bubble falls, then those fully below the bottom are
      dropped; no bubble is added and every survivor is still on screen. */
  function StepBubbles(bubbles: seq<Bubble>): (r: seq<Bubble>)
    ensures |r| <= |bubbles|
    ensures forall u :: u in r ==> u.y - u.radius < 600.0
  {
    Filter(FallAll(bubbles), BubbleOnScreen)
  }

  /** After the bullet step, the bullets are exactly the risen ones whose tail is
      still below the top edge, in their original order. */
  lemma BulletsStep(bullets: seq<Bullet>)
    ensures Selects(StepBullets(bullets), RiseAll(bullets), BulletOnScreen)
  {
    FilterSelects(RiseAll(bullets), BulletOnScreen);
  }

  /** After the bubble step, the bubbles are exactly the fallen ones whose top is
      still above the bottom edge, in their original order. */
  lemma BubblesStep(bubbles: seq<Bubble>)
    ensures Selects(StepBubbles(bubbles), FallAll(bubbles), BubbleOnScreen)
  {
    FilterSelects(FallAll(bubbles), BubbleOnScreen);
  }

  /** Lines 101-103: at most one bubble is appended, at the end, and only when the
      spawn draw is below 0.03. */
  function Spawn(bubbles: seq<Bubble>, d: Draws): (r: seq<Bubble>)
    requires d.Valid()
    ensures |r| == if d.spawn < 0.03 then |bubbles| + 1 else |bubbles|
    ensures r[..|bubbles|] == bubbles
    ensures |r| > |bubbles| ==> Spawnable(r[|bubbles|]) && r[|bubbles|].y == -15.0
  {
    if d.spawn < SPAWN_CHANCE then bubbles + [NewBubble(d)] else bubbles
  }

  /** Lines 61-83 of `update`: steer, shoot, cool down, advance bullets and bubbles. */
  function Move(w: World, keys: Keys): (r: World)
    ensures r.aircraftY == w.aircraftY && r.score == w.score
    ensures r.timeLeft == w.timeLeft && r.gameOver == w.gameOver
    ensures |r.bullets| <= |w.bullets| + 1 && |r.bubbles| <= |w.bubbles|
    ensures r.bubbles == StepBubbles(w.bubbles)
    ensures r.aircraftX == Steer(w.aircraftX, keys.left, keys.right)
    ensures r.cooldown == NextCooldown(keys.fire, w.cooldown)
    ensures r.bullets == StepBullets(Shoot(w.bullets, Steer(w.aircraftX, keys.left, keys.right), w.aircraftY, keys.fire, w.cooldown))
  {
    var x := Steer(w.aircraftX, keys.left, keys.right);
    w.(aircraftX := x,
       cooldown := NextCooldown(keys.fire, w.cooldown),
       bullets := StepBullets(Shoot(w.bullets, x, w.aircraftY, keys.fire, w.cooldown)),
       bubbles := StepBubbles(w.bubbles))
  }

  /** Lines 86-98 of `update`: the collision pass. */
  function Resolve(w: World): (r: World)
    ensures r.(bullets := w.bullets, bubbles := w.bubbles, score := w.score) == w
    ensures w.score <= r.score && r.score - w.score == |w.bubbles| - |r.bubbles|
    ensures SubsequenceOf(r.bullets, w.bullets) && SubsequenceOf(r.bubbles, w.bubbles)
  {
    CollideKeepsOrder(Sweep(w.bullets, w.bubbles, w.score));
    var c := Collide(Sweep(w.bullets, w.bubbles, w.score));
    w.(bullets := c.bullets, bubbles := c.bubbles, score := c.score)
  }

  /** One call of `update`: move, shoot, cool down, advance bullets and bubbles,
      resolve collisions, maybe spawn. The timer and the phase are untouched. */
  function Step(w: World, keys: Keys, d: Draws): (r: World)
    requires d.Valid()
    ensures r.aircraftY == w.aircraftY && r.timeLeft == w.timeLeft && r.gameOver == w.gameOver
    ensures w.score <= r.score
    ensures r.score - w.score == |StepBubbles(w.bubbles)| + (if d.spawn < 0.03 then 1 else 0) - |r.bubbles|
  {
    var c := Resolve(Move(w, keys));
    c.(bubbles := Spawn(c.bubbles, d))
  }

  /** One call of `gameLoop`: nothing at all once the game is over. */
  function Frame(w: World, keys: Keys, d: Draws): (r: World)
    requires d.Valid()
    ensures w.gameOver ==> r == w
    ensures !w.gameOver ==> r == Step(w, keys, d)
  {
    if w.gameOver then w else Step(w, keys, d)
  }

  /** When, after moving, no bullet overlaps a bubble, the frame scores nothing and
      the collision pass leaves both arrays as the movement step left them. */
  lemma StepWithoutHits(w: World, keys: Keys, d: Draws)
    requires d.Valid()
    requires
      var shots := Shoot(w.bullets, Steer(w.aircraftX, keys.left, keys.right), w.aircraftY, keys.fire, w.cooldown);
      NoHits(StepBullets(shots), StepBubbles(w.bubbles))
    ensures var r := Step(w, keys, d);
      var shots := Shoot(w.bullets, Steer(w.aircraftX, keys.left, keys.right), w.aircraftY, keys.fire, w.cooldown);
      && r.score == w.score
      && r.bullets == StepBullets(shots)
      && r.bubbles == Spawn(StepBubbles(w.bubbles), d)
  {
    var shots := Shoot(w.bullets, Steer(w.aircraftX, keys.left, keys.right), w.aircraftY, keys.fire, w.cooldown);
    CollideQuiet(Sweep(StepBullets(shots), StepBubbles(w.bubbles), w.score));
  }

  // ---------------------------------------------------------------- the timer

  /** The `setTimeLeft` updater: one second less, or 0 once one second or less is left. */
  function NextTime(t: int): (t': int)
    ensures 0 <= t'
    ensures 1 < t ==> t' == t - 1
    ensures t <= 1 ==> t' == 0
  {
    if t <= 1 then 0 else t - 1
  }

  /** The updater calls `setGameOver(true)`. */
  predicate Expires(t: int) {
    t <= 1
  }

  /** One timer tick. When it ends the game, the game-loop effect runs again (it
      depends on `gameOver`), which starts a fresh `shootCooldown` of 0. */
  function Tick(w: World): (r: World)
    ensures r.timeLeft == NextTime(w.timeLeft)
    ensures r.gameOver == (w.gameOver || w.timeLeft <= 1)
    ensures r.cooldown == (if !w.gameOver && w.timeLeft <= 1 then 0 else w.cooldown)
    ensures r.(timeLeft := w.timeLeft, gameOver := w.gameOver, cooldown := w.cooldown) == w
  {
    var over := w.gameOver || Expires(w.timeLeft);
    w.(timeLeft := NextTime(w.timeLeft), gameOver := over,
       cooldown := if over && !w.gameOver then 0 else w.cooldown)
  }

  /** The state after n timer ticks and no other event. */
  function Ticks(w: World, n: nat): World {
    if n == 0 then w else Tick(Ticks(w, n - 1))
  }

  /** From t >= 1 seconds, the game runs for exactly t ticks: after n <= t ticks t - n
      seconds are left, and the game is over exactly at the t-th. */
  lemma {:induction false} Countdown(w: World, n: nat)
    requires !w.gameOver && 1 <= w.timeLeft && n <= w.timeLeft
    ensures Ticks(w, n).timeLeft == w.timeLeft - n
    ensures Ticks(w, n).gameOver <==> n == w.timeLeft
  {
    if n > 0 {
      Countdown(w, n - 1);
    }
  }

  /** A fresh game lasts exactly 60 ticks and then reads 0 seconds. */
  lemma MatchLasts60Ticks()
    ensures forall n: nat :: n < GAME_TIME ==> Ticks(Initial(), n).timeLeft == GAME_TIME - n && !Ticks(Initial(), n).gameOver
    ensures Ticks(Initial(), GAME_TIME).timeLeft == 0 && Ticks(Initial(), GAME_TIME).gameOver
  {
    forall n: nat | n < GAME_TIME
      ensures Ticks(Initial(), n).timeLeft == GAME_TIME - n && !Ticks(Initial(), n).gameOver
    {
      Countdown(Initial(), n);
    }
    Countdown(Initial(), GAME_TIME);
  }

  /** Ticking a finished game changes nothing. */
  lemma TickWhenOver(w: World)
    requires w.gameOver && w.timeLeft == 0
    ensures Tick(w) == w
  {
  }

  // ---------------------------------------------------------------- restart

  /** `handleRestart`. The effect runs again only when `gameOver` actually flips
      from true to false, and only then is `shootCooldown` reset. */
  function Restart(w: World): (r: World)
    ensures r.score == 0 && r.timeLeft == GAME_TIME && !r.gameOver
    ensures r.bullets == [] && r.bubbles == []
    ensures r.aircraftX == 430 && r.aircraftY == 550
    ensures w.gameOver ==> r.cooldown == 0
    ensures !w.gameOver ==> r.cooldown == w.cooldown
  {
    World(START_X, START_Y, if w.gameOver then 0 else w.cooldown, [], [], 0, GAME_TIME, false)
  }

  /** Restarting a finished game gives exactly the state at mount. */
  lemma RestartWhenOver(w: World)
    requires w.gameOver
    ensures Restart(w) == Initial()
  {
  }

  // ---------------------------------------------------------------- any run

  /** The callbacks that can fire, in any interleaving. */
  datatype Event = Animate(keys: Keys, draws: Draws) | Second | RestartClicked {
    predicate Valid() {
      Animate? ==> draws.Valid()
    }
  }

  function Apply(w: World, e: Event): World
    requires e.Valid()
  {
    match e
    case Animate(keys, d) => Frame(w, keys, d)
    case Second => Tick(w)
    case RestartClicked => Restart(w)
  }

  function Run(w: World, events: seq<Event>): World
    requires forall e :: e in events ==> e.Valid()
    decreases |events|
  {
    if events == [] then w else Run(Apply(w, events[0]), events[1..])
  }

  /** What holds of every reachable state: the aircraft stays within 7 units of the
      arena's [0, 860] on the 7-unit grid through 430 at height 550, the cooldown
      lies in [0, 14], the timer in [0, 60] and is 0 exactly when the game is over,
      and every bubble keeps the x, radius and speed bounds it was spawned with. */
  ghost predicate Invariant(w: World) {
    && w.aircraftY == 550
    && -7 < w.aircraftX < 867
    && w.aircraftX % 7 == 430 % 7
    && 0 <= w.cooldown <= 14
    && 0 <= w.timeLeft <= GAME_TIME
    && (w.gameOver <==> w.timeLeft == 0)
    && forall u :: u in w.bubbles ==> Spawnable(u)
  }

  lemma StepInvariant(w: World, keys: Keys, d: Draws)
    requires Invariant(w) && d.Valid()
    ensures Invariant(Step(w, keys, d))
  {
    var x := Steer(w.aircraftX, keys.left, keys.right);
    var shots := Shoot(w.bullets, x, w.aircraftY, keys.fire, w.cooldown);
    var moved := StepBubbles(w.bubbles);
    forall u | u in moved ensures Spawnable(u) {
      var i :| 0 <= i < |FallAll(w.bubbles)| && FallAll(w.bubbles)[i] == u;
      assert w.bubbles[i] in w.bubbles;
    }
    var s := Sweep(StepBullets(shots), moved, w.score);
    CollideKeepsOrder(s);
    var c := Collide(s);
    var r := Spawn(c.bubbles, d);
    forall u | u in r ensures Spawnable(u) {
      var i :| 0 <= i < |r| && r[i] == u;
      if i < |c.bubbles| {
        assert r[..|c.bubbles|][i] == u;
      }
    }
  }

  lemma ApplyInvariant(w: World, e: Event)
    requires Invariant(w) && e.Valid()
    ensures Invariant(Apply(w, e))
  {
    if e.Animate? && !w.gameOver {
      StepInvariant(w, e.keys, e.draws);
    }
  }

  lemma {:induction false} RunInvariant(w: World, events: seq<Event>)
    requires Invariant(w)
    requires forall e :: e in events ==> e.Valid()
    ensures Invariant(Run(w, events))
    decreases |events|
  {
    if events != [] {
      ApplyInvariant(w, events[0]);
      RunInvariant(Apply(w, events[0]), events[1..]);
    }
  }

  /** Whatever keys are held, whatever the random draws, and however frames, timer
      ticks and restarts interleave from mount: the aircraft's x stays in (-7, 867)
      on the grid 430 + 7k, its y stays 550, and the timer never goes negative. */
  lemma AircraftStaysNearArena(events: seq<Event>)
    requires forall e :: e in events ==> e.Valid()
    ensures var w := Run(Initial(), events);
      && -7 < w.aircraftX < 867 && w.aircraftX % 7 == 3 && w.aircraftY == 550
      && 0 <= w.cooldown <= 14
      && 0 <= w.timeLeft <= 60
  {
    RunInvariant(Initial(), events);
  }
}
