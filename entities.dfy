/** The configuration constants of the arena (Game/src/App.jsx, lines 3-10 and the
    literals of `update`), the bullet and bubble records, the per-frame inputs, and
    the rules that apply to one entity at a time. */
module Entities {

  const CANVAS_WIDTH: int := 900
  const CANVAS_HEIGHT: int := 600
  const AIRCRAFT_WIDTH: int := 40
  const AIRCRAFT_HEIGHT: int := 40
  const BUBBLE_RADIUS: int := 15
  const BULLET_WIDTH: int := 8
  const BULLET_HEIGHT: int := 16
  const GAME_TIME: int := 60

  /** Pixels the aircraft moves per frame while an arrow key is held. */
  const AIRCRAFT_STEP: int := 7
  /** Pixels a bullet rises per frame. */
  const BULLET_SPEED: real := 12.0
  /** Frames that must pass between two shots. */
  const SHOOT_DELAY: int := 15
  /** Probability of a new bubble per frame. */
  const SPAWN_CHANCE: real := 0.03

  /** The aircraft's starting position: centred horizontally, 10 units above the floor. */
  const START_X: int := CANVAS_WIDTH / 2 - AIRCRAFT_WIDTH / 2
  const START_Y: int := CANVAS_HEIGHT - AIRCRAFT_HEIGHT - 10

  datatype Bullet = Bullet(x: real, y: real)

  datatype Bubble = Bubble(x: real, y: real, radius: real, speed: real)

  /** The keys held during one frame: "ArrowLeft", "ArrowRight" and " ". */
  datatype Keys = Keys(left: bool, right: bool, fire: bool)

  /** The values `Math.random()` returns during one frame, in the order `update` draws
      them: the spawn test, then x, radius and speed of the new bubble. */
  datatype Draws = Draws(spawn: real, x: real, radius: real, speed: real) {
    predicate Valid() {
      && IsDraw(spawn) && IsDraw(x) && IsDraw(radius) && IsDraw(speed)
    }
  }

  /** What `Math.random()` can return. */
  predicate IsDraw(r: real) {
    0.0 <= r < 1.0
  }

  // ---------------------------------------------------------------- aircraft

  /** The aircraft's x after the two independent arrow-key moves of one frame. */
  function Steer(x: int, left: bool, right: bool): (x': int)
    ensures x' - x in {-AIRCRAFT_STEP, 0, AIRCRAFT_STEP}
    ensures x' % AIRCRAFT_STEP == x % AIRCRAFT_STEP
    ensures x' < x <==> left && 0 < x && !(right && x < CANVAS_WIDTH - AIRCRAFT_WIDTH + AIRCRAFT_STEP)
    ensures x' > x <==> right && x < CANVAS_WIDTH - AIRCRAFT_WIDTH && !(left && 0 < x)
    ensures -AIRCRAFT_STEP < x < CANVAS_WIDTH - AIRCRAFT_WIDTH + AIRCRAFT_STEP ==>
              -AIRCRAFT_STEP < x' < CANVAS_WIDTH - AIRCRAFT_WIDTH + AIRCRAFT_STEP
  {
    var afterLeft := if left && x > 0 then x - AIRCRAFT_STEP else x;
    if right && afterLeft < CANVAS_WIDTH - AIRCRAFT_WIDTH then afterLeft + AIRCRAFT_STEP else afterLeft
  }

  /** The aircraft's x after n frames with the same keys held. */
  function SteerFor(x: int, left: bool, right: bool, n: nat): int
  {
    if n == 0 then x else Steer(SteerFor(x, left, right, n - 1), left, right)
  }

  /** Holding one arrow from the start position, the aircraft ends 4 units beyond
      either wall: the guards test the position before the 7-unit move. */
  lemma {:induction false} SteerOvershoots()
    ensures SteerFor(START_X, true, false, 62) == -4
    ensures SteerFor(START_X, true, false, 63) == -4
    ensures SteerFor(START_X, false, true, 62) == 864
    ensures SteerFor(START_X, false, true, 63) == 864
  {
    HoldLeft(62);
    HoldRight(62);
  }

  lemma {:induction false} HoldLeft(n: nat)
    requires n <= 62
    ensures SteerFor(START_X, true, false, n) == START_X - AIRCRAFT_STEP * n
  {
    if n > 0 {
      HoldLeft(n - 1);
    }
  }

  lemma {:induction false} HoldRight(n: nat)
    requires n <= 62
    ensures SteerFor(START_X, false, true, n) == START_X + AIRCRAFT_STEP * n
  {
    if n > 0 {
      HoldRight(n - 1);
    }
  }

  // ---------------------------------------------------------------- firing

  /** A shot leaves on this frame. */
  predicate Fires(fire: bool, cooldown: int) {
    fire && cooldown <= 0
  }

  /** The cooldown counter at the end of a frame: reset to 15 by a shot, then
      decremented while positive. */
  function NextCooldown(fire: bool, cooldown: int): (c: int)
    ensures Fires(fire, cooldown) ==> c == SHOOT_DELAY - 1
    ensures !Fires(fire, cooldown) && cooldown > 0 ==> c == cooldown - 1
    ensures !Fires(fire, cooldown) && cooldown <= 0 ==> c == cooldown
    ensures 0 <= cooldown <= SHOOT_DELAY ==> 0 <= c < SHOOT_DELAY
  {
    var reset := if Fires(fire, cooldown) then SHOOT_DELAY else cooldown;
    if reset > 0 then reset - 1 else reset
  }

  /** The bullet fired from an aircraft at (x, y): horizontally centred, from its nose. */
  function Muzzle(x: int, y: int): (b: Bullet)
    ensures b.x == (x + 16) as real && b.y == (y - 8) as real
  {
    Bullet((x + AIRCRAFT_WIDTH / 2 - BULLET_WIDTH / 2) as real, (y - BULLET_HEIGHT / 2) as real)
  }

  /** The cooldown seen at the start of frame n when fire has been held since a
      frame that began with the counter at c (0 after a restart). */
  function HeldFrom(c: int, n: nat): int
  {
    if n == 0 then c else NextCooldown(true, HeldFrom(c, n - 1))
  }

  /** Frame 15q + m of a trigger held from a counter of 0 sees the counter at 0 when
      m is 0, else at 15 - m. */
  lemma {:induction false} HeldCooldownAt(q: nat, m: nat)
    requires m < SHOOT_DELAY
    ensures HeldFrom(0, SHOOT_DELAY * q + m) == if m == 0 then 0 else SHOOT_DELAY - m
    decreases q, m
  {
    if m > 0 {
      HeldCooldownAt(q, m - 1);
    } else if q > 0 {
      HeldCooldownAt(q - 1, SHOOT_DELAY - 1);
      assert SHOOT_DELAY * q - 1 == SHOOT_DELAY * (q - 1) + (SHOOT_DELAY - 1);
    }
  }

  /** With fire held continuously from a counter of 0, a shot leaves exactly every
      15 frames. */
  lemma HeldFireEvery15(n: nat)
    ensures Fires(true, HeldFrom(0, n)) <==> n % SHOOT_DELAY == 0
  {
    HeldCooldownAt(n / SHOOT_DELAY, n % SHOOT_DELAY);
  }

  /** With fire held, a positive counter runs down by one per frame. */
  lemma {:induction false} HeldCountdown(c: int, n: nat)
    requires n <= c
    ensures HeldFrom(c, n) == c - n
  {
    if n > 0 {
      HeldCountdown(c, n - 1);
    }
  }

  /** Holding for m + k frames is holding for m frames and then for k more. */
  lemma {:induction false} HeldShift(c: int, m: nat, k: nat)
    ensures HeldFrom(c, m + k) == HeldFrom(HeldFrom(c, m), k)
    decreases k
  {
    if k > 0 {
      HeldShift(c, m, k - 1);
    }
  }

  /** From any counter c >= 0 (every end-of-frame value lies in [0, 14]), a held
      trigger fires first on frame c and then on every 15th frame after it. */
  lemma HeldFireFrom(c: int, n: nat)
    requires 0 <= c
    ensures Fires(true, HeldFrom(c, n)) <==> n >= c && (n - c) % SHOOT_DELAY == 0
  {
    if n < c {
      HeldCountdown(c, n);
    } else {
      HeldCountdown(c, c);
      HeldShift(c, c, n - c);
      HeldFireEvery15(n - c);
    }
  }

  /** The counter after a run of frames with any keys held, starting from c. */
  function AfterFrames(c: int, frames: seq<Keys>): int
    decreases |frames|
  {
    if frames == [] then c
    else NextCooldown(frames[|frames| - 1].fire, AfterFrames(c, frames[..|frames| - 1]))
  }

  /** A counter c >= |frames| runs down by one per frame, whatever keys are held. */
  lemma {:induction false} FramesCountdown(c: int, frames: seq<Keys>)
    requires |frames| <= c
    ensures AfterFrames(c, frames) == c - |frames|
    decreases |frames|
  {
    if frames != [] {
      FramesCountdown(c, frames[..|frames| - 1]);
    }
  }

  /** Shots are at least 15 frames apart, whatever keys are held: after a shot, the
      next 14 frames begin with a positive counter, and the 15th with 0. */
  lemma ShotSpacing(fire: bool, c: int, frames: seq<Keys>)
    requires Fires(fire, c)
    requires |frames| < SHOOT_DELAY
    ensures AfterFrames(NextCooldown(fire, c), frames) == SHOOT_DELAY - 1 - |frames|
    ensures |frames| < SHOOT_DELAY - 1 ==> forall f: bool :: !Fires(f, AfterFrames(NextCooldown(fire, c), frames))
  {
    FramesCountdown(NextCooldown(fire, c), frames);
  }

  // ---------------------------------------------------------------- movement

  /** `b.y -= 12`. */
  function Rise(b: Bullet): (r: Bullet)
    ensures r.x == b.x && r.y == b.y - 12.0
  {
    b.(y := b.y - BULLET_SPEED)
  }

  /** `bubble.y += bubble.speed`. */
  function Fall(u: Bubble): (r: Bubble)
    ensures r.x == u.x && r.y == u.y + u.speed && r.radius == u.radius && r.speed == u.speed
  {
    u.(y := u.y + u.speed)
  }

  /** The filter predicate of line 79: the bullet's tail is still below the top edge. */
  predicate BulletOnScreen(b: Bullet): (on: bool)
    ensures b.y >= 0.0 ==> on
    ensures !on ==> Rise(b).y + BULLET_HEIGHT as real <= 0.0
  {
    b.y + BULLET_HEIGHT as real > 0.0
  }

  /** The filter predicate of line 83: the bubble's top is still above the bottom edge. */
  predicate BubbleOnScreen(u: Bubble): (on: bool)
    ensures 0.0 <= u.radius && u.y < CANVAS_HEIGHT as real ==> on
    ensures !on && 0.0 <= u.speed ==> Fall(u).y - u.radius >= CANVAS_HEIGHT as real
  {
    u.y - u.radius < CANVAS_HEIGHT as real
  }

  // ---------------------------------------------------------------- spawning

  /** `getRandomX()`: a centre that keeps a base-radius bubble inside the arena. */
  function RandomX(draw: real): (x: real)
    requires IsDraw(draw)
    ensures BUBBLE_RADIUS as real <= x < (CANVAS_WIDTH - BUBBLE_RADIUS) as real
  {
    draw * (CANVAS_WIDTH - BUBBLE_RADIUS * 2) as real + BUBBLE_RADIUS as real
  }

  /** The bounds every spawned bubble's fixed attributes lie in. */
  predicate Spawnable(u: Bubble) {
    && 15.0 <= u.x < 885.0
    && 15.0 <= u.radius < 25.0
    && 1.0 <= u.speed < 2.5
  }

  /** `spawnBubble()`'s new bubble, one base radius above the top edge. */
  function NewBubble(d: Draws): (u: Bubble)
    requires d.Valid()
    ensures Spawnable(u)
    ensures u.y == -15.0
  {
    Bubble(RandomX(d.x), -BUBBLE_RADIUS as real, BUBBLE_RADIUS as real + d.radius * 10.0, 1.0 + d.speed * 1.5)
  }

  // ---------------------------------------------------------------- collision

  /** `Math.sqrt(dx * dx + dy * dy) < bubble.radius`, where (x + 4, y) is the
      midpoint of the bullet's base, stated without the square root. */
  predicate Hits(b: Bullet, u: Bubble): (hit: bool)
    ensures hit ==> && 0.0 < u.radius
                    && u.x - u.radius < b.x + 4.0 < u.x + u.radius
                    && u.y - u.radius < b.y < u.y + u.radius
  {
    var dx := b.x + (BULLET_WIDTH / 2) as real - u.x;
    var dy := b.y - u.y;
    if 0.0 < u.radius && dx * dx + dy * dy < u.radius * u.radius then
      HitBox(dx, dy, u.radius);
      true
    else
      false
  }

  /** A point strictly inside a circle lies strictly inside its bounding square. */
  lemma HitBox(dx: real, dy: real, r: real)
    requires 0.0 < r && dx * dx + dy * dy < r * r
    ensures -r < dx < r && -r < dy < r
  {
    NonNegativeSquare(dx);
    NonNegativeSquare(dy);
    BelowSquare(dx, r);
    BelowSquare(dy, r);
  }

  lemma NonNegativeSquare(a: real)
    ensures 0.0 <= a * a
  {
    if a < 0.0 {
      PositiveProduct(-a, -a);
    } else if a > 0.0 {
      PositiveProduct(a, a);
    }
  }

  lemma BelowSquare(a: real, r: real)
    requires 0.0 < r && a * a < r * r
    ensures -r < a < r
  {
    if r <= a {
      SquaresAtMost(r, a);
    } else if a <= -r {
      SquaresAtMost(r, -a);
    }
  }

  /** The squared comparison agrees with the square-root one: for the non-negative
      root d of a squared distance, d < r exactly when r > 0 and the square is below r * r. */
  lemma RootComparison(d: real, square: real, r: real)
    requires 0.0 <= d && d * d == square
    ensures d < r <==> 0.0 < r && square < r * r
  {
    if d < r {
      SquaresBelow(d, r);
    } else if 0.0 < r {
      SquaresAtMost(r, d);
    }
  }

  lemma PositiveProduct(p: real, q: real)
    requires 0.0 < p && 0.0 < q
    ensures 0.0 < p * q
  {
  }

  lemma SquaresBelow(a: real, b: real)
    requires 0.0 <= a < b
    ensures a * a < b * b
  {
    assert b * b - a * a == (b - a) * (b + a);
    PositiveProduct(b - a, b + a);
  }

  lemma SquaresAtMost(a: real, b: real)
    requires 0.0 <= a <= b
    ensures a * a <= b * b
  {
    if a < b {
      SquaresBelow(a, b);
    }
  }

  lemma HitsIsRootComparison(b: Bullet, u: Bubble, dist: real)
    requires 0.0 <= dist
    requires dist * dist == (b.x + 4.0 - u.x) * (b.x + 4.0 - u.x) + (b.y - u.y) * (b.y - u.y)
    ensures Hits(b, u) <==> dist < u.radius
  {
    var dx, dy := b.x + 4.0 - u.x, b.y - u.y;
    assert (BULLET_WIDTH / 2) as real == 4.0;
    assert Hits(b, u) <==> 0.0 < u.radius && dx * dx + dy * dy < u.radius * u.radius;
    RootComparison(dist, dx * dx + dy * dy, u.radius);
  }
}
