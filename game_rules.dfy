/** The rules of one game tick, as functions of the game state: the bullet pass,
    the rock pass with its bullet hits, splits, reset and bounces, the cannon
    clamp, and the spawning and difficulty steps of the tick. Each loop of the
    source is a recursive function with the loop index as a parameter, so that
    removals during the pass behave exactly as the source's in-place removals. */
module GameRules {
  import opened Bodies

  // Tunables fixed by the Game constructor.
  const LevelScore: int := 200
  const MinRockStrength: int := 50
  const BulletRadius: real := 3.0
  const BulletVelocity: Vec := Vec(0.0, -3.0)
  const BulletAcceleration: Vec := Vec(0.0, 0.0)
  const BulletStrength: int := 2
  const MaxRockVelocity: Vec := Vec(1.0, 1.0)
  const Gravity: real := 0.02
  const RockSpawnInterval: int := 270
  const BulletSpawnInterval: int := 5
  const RockShades: int := 5

  /** 2 to the power n. */
  function Pow2(n: nat): (r: int)
    ensures r >= 1
  {
    if n == 0 then 1 else 2 * Pow2(n - 1)
  }

  /** 2 to an integer power, possibly negative, as Math.pow(2, k) computes it. */
  function PowReal(k: int): (r: real)
    decreases if k >= 0 then 0 else -k
  {
    if k >= 0 then Pow2(k) as real else PowReal(k + 1) / 2.0
  }

  /** The radius of a newly spawned rock: a tenth of the arena width. */
  function RockRadius(width: nat): int { Round(width as real / 10.0) }

  /** Every circle of the sequence has strength left. */
  predicate Alive(s: seq<Circle>)
  {
    forall j :: 0 <= j < |s| ==> s[j].strength > 0
  }

  /** No circle of the sequence has more strength than it started with. */
  predicate Intact(s: seq<Circle>)
  {
    forall j :: 0 <= j < |s| ==> s[j].strength <= s[j].originalStrength
  }

  /** Array.prototype.splice(i, 1). */
  function Remove(s: seq<Circle>, i: nat): (r: seq<Circle>)
    requires i < |s|
    ensures |r| == |s| - 1
  {
    s[..i] + s[i + 1..]
  }

  /** Splicing out index i keeps the elements before it in place and moves every
      later element down by one. */
  lemma RemoveShifts(s: seq<Circle>, i: nat)
    requires i < |s|
    ensures forall j :: 0 <= j < i ==> Remove(s, i)[j] == s[j]
    ensures forall j :: i <= j < |s| - 1 ==> Remove(s, i)[j] == s[j + 1]
  {
  }

  function StrengthSum(s: seq<Circle>): int
  {
    if s == [] then 0 else s[0].strength + StrengthSum(s[1..])
  }

  /** Removing one circle takes exactly its strength out of the total. */
  lemma {:induction false} StrengthSumRemove(s: seq<Circle>, i: nat)
    requires i < |s|
    ensures StrengthSum(Remove(s, i)) == StrengthSum(s) - s[i].strength
    decreases i
  {
    if i == 0 {
      assert Remove(s, 0) == s[1..];
    } else {
      var r := Remove(s, i);
      assert r[0] == s[0] && r[1..] == Remove(s[1..], i - 1);
      StrengthSumRemove(s[1..], i - 1);
    }
  }

  // ---------------------------------------------------------------------------
  // Start state

  function StartSurface(width: nat, height: nat): Rect
  {
    MakeRect(Vec(Round(width as real / 2.0) as real, Round(height as real * 11.0 / 12.0) as real),
             Vec(width as real, Round(height as real / 6.0) as real), SurfaceLook)
  }

  function StartCannon(width: nat, height: nat): Rect
  {
    MakeRect(Vec(Round(width as real / 2.0) as real, Round(height as real * 5.0 / 6.0) as real),
             Vec(Round(width as real / 6.0) as real, Round(height as real / 18.0) as real), CannonLook)
  }

  datatype World = World(rocks: seq<Circle>, bullets: seq<Circle>, cannon: Rect, surface: Rect,
                         score: int, interval: int, levelFactor: nat)

  /** Game.start: score, tick counter and level back to zero, no rocks and no
      bullets, surface and cannon at their start positions and sizes. */
  function StartWorld(width: nat, height: nat): World
  {
    World([], [], StartCannon(width, height), StartSurface(width, height), 0, 0, 0)
  }

  // ---------------------------------------------------------------------------
  // Bullet pass

  /** A moved bullet leaves when it is above the arena or depleted. */
  predicate BulletGone(b: Circle) { b.body.center.y < 0.0 || Depleted(b) }

  /** The bullet loop from index i on: move bullet i; splice it out if it is
      gone, after which the loop index still advances (the bullet that moved
      into slot i is not visited in this pass). */
  function BulletPass(bs: seq<Circle>, i: nat): (r: seq<Circle>)
    decreases |bs| - i
    ensures |r| <= |bs|
    ensures Alive(bs) ==> Alive(r)
  {
    if i >= |bs| then bs
    else
      var moved := bs[i := MoveCircle(bs[i])];
      if BulletGone(moved[i]) then BulletPass(Remove(moved, i), i + 1)
      else BulletPass(moved, i + 1)
  }

  // ---------------------------------------------------------------------------
  // One rock against the bullets

  datatype HitResult = HitResult(rock: Circle, bullets: seq<Circle>, score: int)

  /** The inner loop from bullet b on: every bullet the rock touches takes its
      strength off the rock, adds it to the score and is spliced out; the index
      advances after a removal as after a miss. */
  function Hits(rock: Circle, bs: seq<Circle>, b: nat, score: int): (r: HitResult)
    decreases |bs| - b
    ensures |r.bullets| <= |bs|
    ensures |r.bullets| == |bs| ==> r.rock == rock && r.score == score
    ensures r.rock == rock.(strength := r.rock.strength)
    ensures r.score - score == rock.strength - r.rock.strength
    ensures r.score - score == StrengthSum(bs) - StrengthSum(r.bullets)
    ensures Alive(bs) ==> Alive(r.bullets) && r.score >= score && (r.score > score <==> |r.bullets| < |bs|)
  {
    if b >= |bs| then HitResult(rock, bs, score)
    else if CollidesWithCircle(rock, bs[b]) then
      StrengthSumRemove(bs, b);
      Hits(rock.(strength := rock.strength - bs[b].strength), Remove(bs, b), b + 1, score + bs[b].strength)
    else
      Hits(rock, bs, b + 1, score)
  }

  // ---------------------------------------------------------------------------
  // Splitting

  /** The split test: originalStrength >= minRockStrength * 2^(levelFactor - 3),
      multiplied out by 8, and originalStrength >= 2 * minRockStrength. */
  predicate SplitAllowed(originalStrength: int, levelFactor: nat)
  {
    8 * originalStrength >= MinRockStrength * Pow2(levelFactor) && originalStrength >= 2 * MinRockStrength
  }

  /** The two children of a depleted rock: radius round(r / 1.4) placed that far
      left and right of the parent, half the parent's original strength, the
      parent's horizontal velocity mirrored for the left child, both moving up. */
  function Children(p: Circle): seq<Circle>
  {
    var r := Round(p.radius * 5.0 / 7.0);
    var s := Round(p.originalStrength as real / 2.0);
    var c := p.body.center;
    var v := p.body.velocity;
    [ MakeCircle(Vec(c.x - r as real, c.y), r as real, Vec(-v.x, -Abs(v.y)), p.body.acceleration, s, p.look),
      MakeCircle(Vec(c.x + r as real, c.y), r as real, Vec(v.x, -Abs(v.y)), p.body.acceleration, s, p.look) ]
  }

  /** The rocks a depleted rock leaves behind before it is spliced out. */
  function Offspring(p: Circle, levelFactor: nat): (kids: seq<Circle>)
    ensures Alive(kids)
  {
    if SplitAllowed(p.originalStrength, levelFactor) then
      RoundHalf(p.originalStrength);
      Children(p)
    else []
  }

  // ---------------------------------------------------------------------------
  // Bounces

  /** A rock touching the surface or poking above the ceiling reverses its
      vertical velocity; one poking out of either side reverses its horizontal one. */
  function Bounce(rk: Circle, surface: Rect, width: nat): (r: Circle)
    ensures r == rk.(body := rk.body.(velocity := r.body.velocity))
    ensures Abs(r.body.velocity.x) == Abs(rk.body.velocity.x) && Abs(r.body.velocity.y) == Abs(rk.body.velocity.y)
  {
    var c := rk.body.center;
    var v := rk.body.velocity;
    var vy := if CollidesWithRectAsWritten(rk, surface) || c.y - rk.radius < 0.0 then -v.y else v.y;
    var vx := if c.x - rk.radius < 0.0 || c.x + rk.radius > width as real then -v.x else v.x;
    rk.(body := rk.body.(velocity := Vec(vx, vy)))
  }

  // ---------------------------------------------------------------------------
  // Rock pass

  /** How many rocks from index k on are depleted. */
  function DepletedFrom(s: seq<Circle>, k: nat): nat
    decreases |s| - k
  {
    if k >= |s| then 0 else (if Depleted(s[k]) then 1 else 0) + DepletedFrom(s, k + 1)
  }

  lemma {:induction false} DepletedFromSameTail(s: seq<Circle>, t: seq<Circle>, k: nat, m: nat)
    requires k <= |s| && m <= |t| && s[k..] == t[m..]
    ensures DepletedFrom(s, k) == DepletedFrom(t, m)
    decreases |s| - k
  {
    if k < |s| {
      assert s[k] == s[k..][0] == t[m..][0] == t[m];
      assert s[k + 1..] == s[k..][1..] == t[m..][1..] == t[m + 1..];
      DepletedFromSameTail(s, t, k + 1, m + 1);
    }
  }

  lemma {:induction false} DepletedFromAliveTail(a: seq<Circle>, b: seq<Circle>, k: nat)
    requires Alive(b)
    ensures DepletedFrom(a + b, k) == DepletedFrom(a, k)
    decreases |a| + |b| - k
  {
    if k < |a| + |b| {
      DepletedFromAliveTail(a, b, k + 1);
      if k >= |a| {
        assert (a + b)[k] == b[k - |a|];
      }
    }
  }

  /** Splicing rock i out (after appending live children) adds no depleted rock
      beyond index i. */
  lemma RemovalAddsNoDepleted(rs: seq<Circle>, i: nat, x: Circle, kids: seq<Circle>)
    requires i < |rs| && Alive(kids)
    ensures DepletedFrom(Remove(rs[i := x] + kids, i), i + 1) <= DepletedFrom(rs, i + 1)
  {
    var t := rs[i := x];
    var u := Remove(t, i);
    assert Remove(t + kids, i) == u + kids;
    DepletedFromAliveTail(u, kids, i + 1);
    if i + 1 <= |u| {
      assert u[i + 1..] == rs[i + 2..];
      DepletedFromSameTail(u, rs, i + 1, i + 2);
    }
  }

  datatype Pass = Pass(rocks: seq<Circle>, bullets: seq<Circle>, score: int, reset: bool)

  /** The rock loop from index i on. Rock i is moved and hit by the bullets; a
      depleted rock gets its children appended and is spliced out, after which
      the index still advances; a rock touching the cannon resets the game and
      ends the pass (reset is reported, the state then being the start state);
      any other rock bounces. */
  function RockLoop(rocks: seq<Circle>, bullets: seq<Circle>, score: int, i: nat,
                    levelFactor: nat, cannon: Rect, surface: Rect, width: nat): (r: Pass)
    decreases |bullets| + DepletedFrom(rocks, i), |rocks| - i
    ensures |r.bullets| <= |bullets|
    ensures !r.reset ==> r.score - score == StrengthSum(bullets) - StrengthSum(r.bullets)
    ensures Alive(rocks) ==> Alive(r.rocks)
    ensures Alive(bullets) ==> Alive(r.bullets) && (!r.reset ==> r.score >= score)
  {
    if i >= |rocks| then Pass(rocks, bullets, score, false)
    else
      var moved := rocks[i := MoveCircle(rocks[i])];
      var h := Hits(moved[i], bullets, 0, score);
      var hit := moved[i := h.rock];
      if Depleted(h.rock) then
        var kids := Offspring(h.rock, levelFactor);
        RemovalAddsNoDepleted(rocks, i, h.rock, kids);
        assert hit == rocks[i := h.rock];
        RockLoop(Remove(hit + kids, i), h.bullets, h.score, i + 1, levelFactor, cannon, surface, width)
      else if CollidesWithRectAsWritten(h.rock, cannon) then
        Pass([], [], 0, true)
      else
        var bounced := hit[i := Bounce(h.rock, surface, width)];
        DepletedFromSameTail(rocks, bounced, i + 1, i + 1);
        RockLoop(bounced, h.bullets, h.score, i + 1, levelFactor, cannon, surface, width)
  }

  /** One turn of the rock loop at index i, with the measure that bounds the loop. */
  lemma RockLoopUnfold(rocks: seq<Circle>, bullets: seq<Circle>, score: int, i: nat,
                       levelFactor: nat, cannon: Rect, surface: Rect, width: nat)
    requires i < |rocks|
    ensures var r := RockLoop(rocks, bullets, score, i, levelFactor, cannon, surface, width);
            var h := Hits(MoveCircle(rocks[i]), bullets, 0, score);
            var hit := rocks[i := h.rock];
            if Depleted(h.rock) then
              var rest := Remove(hit + Offspring(h.rock, levelFactor), i);
              r == RockLoop(rest, h.bullets, h.score, i + 1, levelFactor, cannon, surface, width)
              && |h.bullets| + DepletedFrom(rest, i + 1) < |bullets| + DepletedFrom(rocks, i)
            else if CollidesWithRectAsWritten(h.rock, cannon) then
              r == Pass([], [], 0, true)
            else
              var bounced := hit[i := Bounce(h.rock, surface, width)];
              r == RockLoop(bounced, h.bullets, h.score, i + 1, levelFactor, cannon, surface, width)
              && |h.bullets| + DepletedFrom(bounced, i + 1) <= |bullets| + DepletedFrom(rocks, i)
  {
    var moved := rocks[i := MoveCircle(rocks[i])];
    var h := Hits(moved[i], bullets, 0, score);
    assert moved[i := h.rock] == rocks[i := h.rock];
    if Depleted(h.rock) {
      RemovalAddsNoDepleted(rocks, i, h.rock, Offspring(h.rock, levelFactor));
    } else {
      DepletedFromSameTail(rocks, rocks[i := h.rock][i := Bounce(h.rock, surface, width)], i + 1, i + 1);
    }
  }

  // ---------------------------------------------------------------------------
  // Cannon clamp

  /** The cannon lies within the arena horizontally. */
  predicate CannonInside(c: Rect, width: nat)
  {
    0.0 <= c.body.center.x - c.dims.x / 2.0 && c.body.center.x + c.dims.x / 2.0 <= width as real
  }

  /** The cannon's width is a whole number that fits the arena (an odd width must
      be strictly smaller than the arena, since the clamp rounds half of it up). */
  predicate CannonFits(cw: real, width: nat)
  {
    0.0 <= cw && cw == cw.Floor as real && (cw.Floor < width || (cw.Floor == width && width % 2 == 0))
  }

  /** Pushes a cannon that crosses a side back inside; only its x coordinate changes. */
  function ClampCannon(c: Rect, width: nat): (r: Rect)
    ensures r == c.(body := c.body.(center := c.body.center.(x := r.body.center.x)))
  {
    var half := c.dims.x / 2.0;
    var x0 := c.body.center.x;
    var x1 := if x0 - half < 0.0 then Round(half) as real else x0;
    var x2 := if x1 + half > width as real then width as real - Round(half) as real else x1;
    c.(body := c.body.(center := c.body.center.(x := x2)))
  }

  /** A cannon whose width fits ends up inside the arena, and a cannon already
      inside is left where it is. */
  lemma ClampCannonInside(c: Rect, width: nat)
    ensures CannonFits(c.dims.x, width) ==> CannonInside(ClampCannon(c, width), width)
    ensures CannonInside(c, width) ==> ClampCannon(c, width) == c
  {
    RoundHalf(c.dims.x.Floor);
  }

  // ---------------------------------------------------------------------------
  // Collision step and tick

  /** Game.checkCollisions. */
  function CheckCollisions(w: World, width: nat, height: nat): World
  {
    var bs := BulletPass(w.bullets, 0);
    var p := RockLoop(w.rocks, bs, w.score, 0, w.levelFactor, w.cannon, w.surface, width);
    var w1 := if p.reset then StartWorld(width, height)
              else w.(rocks := p.rocks, bullets := p.bullets, score := p.score);
    w1.(cannon := ClampCannon(w1.cannon, width))
  }

  /** The first half of Game.update: move the cannon, then check collisions. */
  function AfterCollisions(w: World, width: nat, height: nat): World
  {
    CheckCollisions(w.(cannon := MoveRect(w.cannon)), width, height)
  }

  /** Game.createBullet: two bullets at a quarter of the cannon's width either side
      of its centre, half its height above it. */
  function BulletPair(cannon: Rect, levelFactor: nat): seq<Circle>
  {
    var c := cannon.body.center;
    var dx := Round(cannon.dims.x / 4.0) as real;
    var dy := Round(cannon.dims.y / 2.0) as real;
    var s := BulletStrength * Pow2(levelFactor);
    [ MakeCircle(Vec(c.x + dx, c.y - dy), BulletRadius, BulletVelocity, BulletAcceleration, s, BulletLook),
      MakeCircle(Vec(c.x - dx, c.y - dy), BulletRadius, BulletVelocity, BulletAcceleration, s, BulletLook) ]
  }

  /** The five Math.random() draws of createRock, each in [0, 1). */
  datatype RockDraw = RockDraw(side: real, height: real, speed: real, heading: real, shade: real)

  /** The band of start heights below one rock radius: width/2 - R for the rock
      radius R. */
  function SpawnSpan(width: nat): real
  {
    width as real / 2.0 - RockRadius(width) as real
  }

  /** The rock radius is at most half the arena width, and the span is a whole
      multiple of one half. */
  lemma SpawnSpanNonNegative(width: nat)
    ensures 0.0 <= SpawnSpan(width)
    ensures 2.0 * SpawnSpan(width) == (width - 2 * RockRadius(width)) as real
  {
    var rr := RockRadius(width);
    if width <= 1 {
      assert rr < 1;
    } else {
      assert rr as real <= width as real / 10.0 + 0.5;
    }
  }

  /** The height of a spawned rock for a height draw h: round(h * (width/2 - R)) + R.
      For a draw in [0, 1) it lies between one radius and half the width below
      the top. */
  function SpawnHeight(width: nat, h: real): (y: real)
    ensures 0.0 <= h < 1.0 ==> RockRadius(width) as real <= y <= width as real / 2.0
  {
    var span := SpawnSpan(width);
    var rr := RockRadius(width);
    SpawnSpanNonNegative(width);
    if 0.0 <= h < 1.0 then
      RoundedScaleWithin(h, span, rr, width - 2 * rr);
      (Round(h * span) + rr) as real
    else
      (Round(h * span) + rr) as real
  }

  /** Game.createRock: a rock at the left wall (side draw above one half) or the
      right wall, moving away from it, falling under gravity. */
  function NewRock(width: nat, levelFactor: nat, d: RockDraw): Circle
  {
    var rr := RockRadius(width);
    var y := SpawnHeight(width, d.height);
    var speed := (0.5 + d.speed / 2.0) * MaxRockVelocity.x;
    var vy := (2.0 * d.heading - 1.0) * MaxRockVelocity.y;
    var look := RockLook((d.shade * RockShades as real).Floor);
    var s := MinRockStrength * Pow2(levelFactor);
    if d.side > 0.5 then
      MakeCircle(Vec(rr as real, y), rr as real, Vec(speed, vy), Vec(0.0, Gravity), s, look)
    else
      MakeCircle(Vec(width as real - rr as real, y), rr as real, Vec(-speed, vy), Vec(0.0, Gravity), s, look)
  }

  /** The second half of Game.update: advance the tick counter, fire a bullet
      pair every bulletSpawnInterval ticks, spawn a rock and wrap the counter at
      rockSpawnInterval, and step the level up when the score reaches its mark. */
  function Spawn(c: World, width: nat, d: RockDraw): World
  {
    var n := c.interval + 1;
    var bullets := if n % BulletSpawnInterval == 0 then c.bullets + BulletPair(c.cannon, c.levelFactor) else c.bullets;
    var spawn := n == RockSpawnInterval;
    var rocks := if spawn then c.rocks + [NewRock(width, c.levelFactor, d)] else c.rocks;
    var lf := if c.score == LevelScore * Pow2(c.levelFactor) then c.levelFactor + 1 else c.levelFactor;
    c.(rocks := rocks, bullets := bullets, interval := if spawn then 0 else n, levelFactor := lf)
  }

  /** Game.update without its rescheduling. */
  function Tick(w: World, width: nat, height: nat, d: RockDraw): World
  {
    Spawn(AfterCollisions(w, width, height), width, d)
  }

  /** What every tick keeps: every rock and bullet on the field has strength
      left and no more than it started with, the score is not negative, the tick
      counter is below the rock interval, and the cannon keeps its start size. */
  predicate Invariant(w: World, width: nat, height: nat)
  {
    Alive(w.rocks) && Alive(w.bullets) && Intact(w.rocks) && Intact(w.bullets)
    && 0 <= w.score && 0 <= w.interval < RockSpawnInterval
    && w.cannon.dims == StartCannon(width, height).dims
  }
}
