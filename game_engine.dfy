/** The Game object: its fields are updated in place by start, checkCollisions,
    createBullet, createRock, update and the two key handlers. Each method is
    proved to leave the state its counterpart in GameRules computes. */
module GameEngine {
  import opened Bodies
  import opened GameRules
  import GameProperties

  const LeftArrow: int := 37
  const RightArrow: int := 39

  class Game {
    const width: nat
    const height: nat
    var rocks: seq<Circle>
    var bullets: seq<Circle>
    var cannon: Rect
    var surface: Rect
    var score: int
    var interval: int
    var levelFactor: nat

    /** The game's state as a value. */
    function State(): World
      reads this
    {
      World(rocks, bullets, cannon, surface, score, interval, levelFactor)
    }

    ghost predicate Valid()
      reads this
    {
      Invariant(State(), width, height)
    }

    /** A game on a canvas of the given size, started. */
    constructor (width: nat, height: nat)
      ensures this.width == width && this.height == height
      ensures State() == StartWorld(width, height)
      ensures Valid()
    {
      this.width := width;
      this.height := height;
      rocks := [];
      bullets := [];
      score := 0;
      interval := 0;
      levelFactor := 0;
      surface := StartSurface(width, height);
      cannon := StartCannon(width, height);
    }

    method Start()
      modifies this
      ensures State() == StartWorld(width, height)
    {
      score := 0;
      interval := 0;
      levelFactor := 0;
      surface := StartSurface(width, height);
      cannon := StartCannon(width, height);
      rocks := [];
      bullets := [];
    }

    method CheckCollisions()
      modifies this
      ensures State() == GameRules.CheckCollisions(old(State()), width, height)
    {
      ghost var w0 := State();
      MoveBullets();
      ghost var p := RockLoop(w0.rocks, bullets, w0.score, 0, w0.levelFactor, w0.cannon, w0.surface, width);
      var hitCannon := MoveRocks();
      ghost var w1 := State();
      assert w1 == if p.reset then StartWorld(width, height)
                   else w0.(rocks := p.rocks, bullets := p.bullets, score := p.score);
      KeepCannonInside();
    }

    /** The side checks of checkCollisions for the cannon. */
    method KeepCannonInside()
      modifies this`cannon
      ensures cannon == ClampCannon(old(cannon), width)
    {
      if cannon.body.center.x - cannon.dims.x / 2.0 < 0.0 {
        cannon := cannon.(body := cannon.body.(center := cannon.body.center.(x := Round(cannon.dims.x / 2.0) as real)));
      }
      if cannon.body.center.x + cannon.dims.x / 2.0 > width as real {
        cannon := cannon.(body := cannon.body.(center := cannon.body.center.(x := width as real - Round(cannon.dims.x / 2.0) as real)));
      }
    }

    /** The bullet loop of checkCollisions. */
    method MoveBullets()
      modifies this`bullets
      ensures bullets == BulletPass(old(bullets), 0)
    {
      var i := 0;
      while i < |bullets|
        invariant BulletPass(bullets, i) == BulletPass(old(bullets), 0)
        decreases |bullets| - i
      {
        bullets := bullets[i := MoveCircle(bullets[i])];
        if BulletGone(bullets[i]) {
          bullets := Remove(bullets, i);
        }
        i := i + 1;
      }
    }

    /** The rock loop of checkCollisions; hitCannon tells whether it ended by
        resetting the game. */
    method MoveRocks() returns (hitCannon: bool)
      modifies this
      ensures var p := RockLoop(old(rocks), old(bullets), old(score), 0, old(levelFactor), old(cannon), old(surface), width);
              hitCannon == p.reset
              && (if p.reset then State() == StartWorld(width, height)
                  else State() == old(State()).(rocks := p.rocks, bullets := p.bullets, score := p.score))
    {
      ghost var p := RockLoop(rocks, bullets, score, 0, levelFactor, cannon, surface, width);
      hitCannon := false;
      var k := 0;
      while k < |rocks|
        invariant !hitCannon
        invariant RockLoop(rocks, bullets, score, k, levelFactor, cannon, surface, width) == p
        invariant cannon == old(cannon) && surface == old(surface)
        invariant interval == old(interval) && levelFactor == old(levelFactor)
        decreases |bullets| + DepletedFrom(rocks, k), |rocks| - k
      {
        RockLoopUnfold(rocks, bullets, score, k, levelFactor, cannon, surface, width);
        ghost var rs := rocks;
        rocks := rocks[k := MoveCircle(rocks[k])];
        HitBullets(k);
        assert rocks == rs[k := rocks[k]];
        if Depleted(rocks[k]) {
          SpliceOut(k);
          k := k + 1;
          continue;
        }
        if CollidesWithRectAsWritten(rocks[k], cannon) {
          Start();
          hitCannon := true;
          break;
        }
        rocks := rocks[k := Bounce(rocks[k], surface, width)];
        k := k + 1;
      }
    }

    /** A depleted rock k: its children are pushed when it may split, then it is
        spliced out. */
    method SpliceOut(k: nat)
      requires k < |rocks|
      modifies this`rocks
      ensures rocks == Remove(old(rocks) + Offspring(old(rocks[k]), levelFactor), k)
    {
      var rock := rocks[k];
      if SplitAllowed(rock.originalStrength, levelFactor) {
        rocks := rocks + Children(rock);
      } else {
        assert rocks == rocks + Offspring(rock, levelFactor);
      }
      rocks := Remove(rocks, k);
    }

    /** The inner loop over the bullets for rock k. */
    method HitBullets(k: nat)
      requires k < |rocks|
      modifies this`rocks, this`bullets, this`score
      ensures var h := Hits(old(rocks[k]), old(bullets), 0, old(score));
              rocks == old(rocks)[k := h.rock] && bullets == h.bullets && score == h.score
    {
      var b := 0;
      while b < |bullets|
        invariant |rocks| == |old(rocks)| && rocks == old(rocks)[k := rocks[k]]
        invariant Hits(rocks[k], bullets, b, score) == Hits(old(rocks[k]), old(bullets), 0, old(score))
        decreases |bullets| - b
      {
        if CollidesWithCircle(rocks[k], bullets[b]) {
          rocks := rocks[k := rocks[k].(strength := rocks[k].strength - bullets[b].strength)];
          score := score + bullets[b].strength;
          bullets := Remove(bullets, b);
        }
        b := b + 1;
      }
    }

    method CreateBullet()
      modifies this`bullets
      ensures bullets == old(bullets) + BulletPair(cannon, levelFactor)
    {
      bullets := bullets + BulletPair(cannon, levelFactor);
    }

    method CreateRock(d: RockDraw)
      modifies this`rocks
      ensures rocks == old(rocks) + [NewRock(width, levelFactor, d)]
    {
      rocks := rocks + [NewRock(width, levelFactor, d)];
    }

    /** One tick; d holds the random draws createRock would make. */
    method Update(d: RockDraw)
      requires Valid()
      modifies this
      ensures State() == Tick(old(State()), width, height, d)
      ensures Valid() && CannonInside(cannon, width)
    {
      ghost var w0 := State();
      cannon := MoveRect(cannon);
      CheckCollisions();
      ghost var c := State();
      assert c == AfterCollisions(w0, width, height);
      interval := interval + 1;
      if interval % BulletSpawnInterval == 0 {
        CreateBullet();
      }
      if interval == RockSpawnInterval {
        CreateRock(d);
        interval := 0;
      }
      if score == LevelScore * Pow2(levelFactor) {
        levelFactor := levelFactor + 1;
      }
      assert State() == Tick(w0, width, height, d);
      GameProperties.TickKeepsInvariant(w0, width, height, d);
    }

    /** Key down: the left and right arrows set the cannon moving at speed 2. */
    method SetDirection(keyCode: int)
      modifies this`cannon
      ensures cannon == old(cannon).(body := cannon.body)
      ensures cannon.body == old(cannon.body).(velocity := cannon.body.velocity)
      ensures cannon.body.velocity == (if keyCode == LeftArrow then Vec(-2.0, 0.0)
                                       else if keyCode == RightArrow then Vec(2.0, 0.0)
                                       else old(cannon.body.velocity))
    {
      if keyCode == LeftArrow {
        cannon := cannon.(body := cannon.body.(velocity := Vec(-2.0, 0.0)));
      }
      if keyCode == RightArrow {
        cannon := cannon.(body := cannon.body.(velocity := Vec(2.0, 0.0)));
      }
    }

    /** Key up: releasing either arrow stops the cannon. */
    method StopMotion(keyCode: int)
      modifies this`cannon
      ensures cannon == old(cannon).(body := cannon.body)
      ensures cannon.body == old(cannon.body).(velocity := cannon.body.velocity)
      ensures cannon.body.velocity == (if keyCode == LeftArrow || keyCode == RightArrow then Vec(0.0, 0.0)
                                       else old(cannon.body.velocity))
    {
      if keyCode == LeftArrow || keyCode == RightArrow {
        cannon := cannon.(body := cannon.body.(velocity := Vec(0.0, 0.0)));
      }
    }
  }
}
