/** The `App` component's game state as an object whose methods update it in place,
    as the callbacks of Game/src/App.jsx do: `update` with its `forEach` loops and
    `splice` calls, `spawnBubble`, the frame guard of `gameLoop`, the timer's
    `setTimeLeft` updater and `handleRestart`. Each method is proved to do what
    the corresponding function of `Simulation` says. */
module Game {
  import opened Sequences
  import opened Entities
  import opened Collision
  import opened Simulation

  class Game {
    var aircraftX: int
    var aircraftY: int
    var shootCooldown: int
    var bullets: seq<Bullet>
    var bubbles: seq<Bubble>
    var score: nat
    var timeLeft: int
    var gameOver: bool

    /** The abstract value of the object. */
    function State(): World
      reads this
    {
      World(aircraftX, aircraftY, shootCooldown, bullets, bubbles, score, timeLeft, gameOver)
    }

    /** Mounting the component. */
    constructor ()
      ensures State() == Initial()
      ensures Invariant(State())
    {
      aircraftX := CANVAS_WIDTH / 2 - AIRCRAFT_WIDTH / 2;
      aircraftY := CANVAS_HEIGHT - AIRCRAFT_HEIGHT - 10;
      shootCooldown := 0;
      bullets := [];
      bubbles := [];
      score := 0;
      timeLeft := GAME_TIME;
      gameOver := false;
    }

    /** The two arrays and the score, as the collision pass sees them. */
    function Pass(): Sweep
      reads this
    {
      Sweep(bullets, bubbles, score)
    }

    /** Lines 78-79: move every bullet up in place, then keep those still on screen. */
    method AdvanceBullets()
      modifies this`bullets
      ensures bullets == StepBullets(old(bullets))
    {
      var i := 0;
      while i < |bullets|
        invariant 0 <= i <= |bullets| == |old(bullets)|
        invariant forall k :: 0 <= k < i ==> bullets[k] == Rise(old(bullets)[k])
        invariant forall k :: i <= k < |bullets| ==> bullets[k] == old(bullets)[k]
      {
        bullets := bullets[i := bullets[i].(y := bullets[i].y - BULLET_SPEED)];
        i := i + 1;
      }
      assert bullets == RiseAll(old(bullets));
      bullets := Filter(bullets, BulletOnScreen);
    }

    /** Lines 82-83: move every bubble down by its own speed, then keep those still on screen. */
    method AdvanceBubbles()
      modifies this`bubbles
      ensures bubbles == StepBubbles(old(bubbles))
    {
      var i := 0;
      while i < |bubbles|
        invariant 0 <= i <= |bubbles| == |old(bubbles)|
        invariant forall k :: 0 <= k < i ==> bubbles[k] == Fall(old(bubbles)[k])
        invariant forall k :: i <= k < |bubbles| ==> bubbles[k] == old(bubbles)[k]
      {
        bubbles := bubbles[i := bubbles[i].(y := bubbles[i].y + bubbles[i].speed)];
        i := i + 1;
      }
      assert bubbles == FallAll(old(bubbles));
      bubbles := Filter(bubbles, BubbleOnScreen);
    }

    /** Lines 87-97: the inner loop for the bullet read at outer index bi. After a
        hit it goes on with the same bullet, splicing at bi again on a further hit. */
    method HitBubbles(bullet: Bullet, bi: nat)
      modifies this`bullets, this`bubbles, this`score
      ensures Pass() == SweepBubbles(bullet, bi, old(Pass()), 0)
    {
      var bubi := 0;
      while bubi < |bubbles|
        invariant SweepBubbles(bullet, bi, Pass(), bubi) == SweepBubbles(bullet, bi, old(Pass()), 0)
        decreases |bubbles| - bubi
      {
        var bubble := bubbles[bubi];
        ghost var after :=
          if Hits(bullet, bubble)
          then Sweep(RemoveAt(bullets, bi), RemoveAt(bubbles, bubi), score + 1)
          else Pass();
        assert SweepBubbles(bullet, bi, Pass(), bubi) == SweepBubbles(bullet, bi, after, bubi + 1);
        if Hits(bullet, bubble) {
          score := score + 1;
          bubbles := RemoveAt(bubbles, bubi);
          bullets := RemoveAt(bullets, bi);
        }
        bubi := bubi + 1;
        assert Pass() == after;
      }
    }

    /** Lines 86-98: the outer loop over the bullets, with the inner one nested. */
    method ResolveCollisions()
      modifies this`bullets, this`bubbles, this`score
      ensures Pass() == Collide(old(Pass()))
    {
      var bi := 0;
      while bi < |bullets|
        invariant SweepBullets(Pass(), bi) == Collide(old(Pass()))
        decreases |bullets| - bi
      {
        assert SweepBullets(Pass(), bi) == SweepBullets(SweepBubbles(bullets[bi], bi, Pass(), 0), bi + 1);
        HitBubbles(bullets[bi], bi);
        bi := bi + 1;
      }
    }

    /** `spawnBubble()`: push one new bubble. */
    method SpawnBubble(d: Draws)
      requires d.Valid()
      modifies this`bubbles
      ensures bubbles == old(bubbles) + [NewBubble(d)]
    {
      bubbles := bubbles + [NewBubble(d)];
    }

    /** Lines 61-75: the aircraft moves, may fire, and the cooldown runs down. */
    method SteerAndShoot(keys: Keys)
      modifies this`aircraftX, this`bullets, this`shootCooldown
      ensures aircraftX == Steer(old(aircraftX), keys.left, keys.right)
      ensures bullets == Shoot(old(bullets), aircraftX, aircraftY, keys.fire, old(shootCooldown))
      ensures shootCooldown == NextCooldown(keys.fire, old(shootCooldown))
    {
      if keys.left && aircraftX > 0 {
        aircraftX := aircraftX - AIRCRAFT_STEP;
      }
      if keys.right && aircraftX < CANVAS_WIDTH - AIRCRAFT_WIDTH {
        aircraftX := aircraftX + AIRCRAFT_STEP;
      }
      if keys.fire && shootCooldown <= 0 {
        bullets := bullets + [Bullet((aircraftX + AIRCRAFT_WIDTH / 2 - BULLET_WIDTH / 2) as real,
                                     (aircraftY - BULLET_HEIGHT / 2) as real)];
        shootCooldown := SHOOT_DELAY;
      }
      if shootCooldown > 0 {
        shootCooldown := shootCooldown - 1;
      }
    }

    /** Lines 61-83 of `update`: everything before the collision pass. */
    method MoveEntities(keys: Keys)
      modifies this
      ensures State() == Move(old(State()), keys)
    {
      SteerAndShoot(keys);
      AdvanceBullets();
      AdvanceBubbles();
    }

    /** `update()`: one frame of the simulation. */
    method Update(keys: Keys, d: Draws)
      requires d.Valid()
      modifies this
      ensures State() == Step(old(State()), keys, d)
      ensures Invariant(old(State())) ==> Invariant(State())
    {
      ghost var w := State();
      MoveEntities(keys);
      ResolveCollisions();
      assert State() == Resolve(Move(w, keys));
      if d.spawn < SPAWN_CHANCE {
        SpawnBubble(d);
      }
      if Invariant(w) {
        StepInvariant(w, keys, d);
      }
    }

    /** `gameLoop()`: a frame, unless the game is over. */
    method GameLoop(keys: Keys, d: Draws)
      requires d.Valid()
      modifies this
      ensures State() == Frame(old(State()), keys, d)
      ensures old(gameOver) ==> unchanged(this)
    {
      if gameOver {
        return;
      }
      Update(keys, d);
    }

    /** The timer callback: apply the `setTimeLeft` updater; when it calls
        `setGameOver(true)` on a running game, the effect restarts with a fresh
        `shootCooldown`. */
    method TimerTick()
      modifies this
      ensures State() == Tick(old(State()))
      ensures Invariant(old(State())) ==> Invariant(State())
    {
      if timeLeft <= 1 {
        timeLeft := 0;
        if !gameOver {
          gameOver := true;
          shootCooldown := 0;
        }
      } else {
        timeLeft := timeLeft - 1;
      }
    }

    /** `handleRestart()`; flipping `gameOver` back to false restarts the effect
        and with it `shootCooldown`. */
    method HandleRestart()
      modifies this
      ensures State() == Restart(old(State()))
      ensures old(gameOver) ==> State() == Initial()
      ensures Invariant(old(State())) ==> Invariant(State())
    {
      if gameOver {
        shootCooldown := 0;
      }
      score := 0;
      timeLeft := GAME_TIME;
      gameOver := false;
      bubbles := [];
      bullets := [];
      aircraftX := CANVAS_WIDTH / 2 - AIRCRAFT_WIDTH / 2;
      aircraftY := CANVAS_HEIGHT - AIRCRAFT_HEIGHT - 10;
    }
  }
}
