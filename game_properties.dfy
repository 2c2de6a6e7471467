/** What the rules of a tick guarantee: the split threshold and the shape of
    the children, score accounting, the reset, the cannon clamp, the spawn
    schedule, the level step, and the invariant every tick keeps. */
module GameProperties {
  import opened Bodies
  import opened GameRules

  // ---------------------------------------------------------------------------
  // Splitting

  /** Multiplying the split threshold out by 8 is exact: the source's real-valued
      test originalStrength >= minRockStrength * 2^(levelFactor - 3) is the model's
      integer test. */
  lemma SplitThresholdIsPowerTest(originalStrength: int, levelFactor: nat)
    ensures (originalStrength as real >= MinRockStrength as real * PowReal(levelFactor - 3))
        <==> 8 * originalStrength >= MinRockStrength * Pow2(levelFactor)
  {
    var k: int := levelFactor - 3;
    if levelFactor >= 3 {
      assert Pow2(levelFactor) == 2 * Pow2(levelFactor - 1) == 4 * Pow2(levelFactor - 2) == 8 * Pow2(levelFactor - 3);
      assert PowReal(k) == Pow2(k) as real;
    } else {
      assert PowReal(0) == 1.0;
      if levelFactor == 0 {
        assert PowReal(-3) == 1.0 / 8.0;
      } else if levelFactor == 1 {
        assert PowReal(-2) == 1.0 / 4.0;
      } else {
        assert PowReal(-1) == 1.0 / 2.0;
      }
    }
  }

  /** The two children have radius round(r / 1.4) for the parent's radius r and
      sit symmetrically either side of the parent, one child radius away; they
      share half the parent's original strength (rounded up) at full strength;
      the left one mirrors the parent's horizontal velocity and both head
      upwards as fast as the parent moved vertically. */
  lemma ChildrenShape(p: Circle)
    ensures var kids := Children(p);
            |kids| == 2
            && kids[0].radius == kids[1].radius == Round(p.radius / 1.4) as real
            && kids[0].body.center.x + kids[1].body.center.x == 2.0 * p.body.center.x
            && kids[1].body.center.x - kids[0].body.center.x == 2.0 * kids[0].radius
            && kids[0].body.center.y == kids[1].body.center.y == p.body.center.y
            && kids[0].body.velocity.x == -p.body.velocity.x && kids[1].body.velocity.x == p.body.velocity.x
            && kids[0].body.velocity.y == kids[1].body.velocity.y == -Abs(p.body.velocity.y) <= 0.0
            && kids[0].body.acceleration == kids[1].body.acceleration == p.body.acceleration
            && kids[0].strength == kids[0].originalStrength == kids[1].strength == kids[1].originalStrength
            && 0 <= 2 * kids[0].strength - p.originalStrength <= 1
            && (p.originalStrength >= 2 * MinRockStrength ==> kids[0].strength >= MinRockStrength)
            && (p.radius >= 2.0 ==> kids[0].radius < p.radius)
  {
    assert p.radius / 1.4 == p.radius * 5.0 / 7.0;
    RoundHalf(p.originalStrength);
  }

  /** A depleted rock of original strength 400 at level 0 splits into two rocks of
      strength 200; one of strength 50 (the minimum) does not split; a rock of
      strength 100 still splits at level 4 but not at level 5. */
  lemma SplitExamples(p: Circle)
    ensures p.originalStrength == 400 ==> SplitAllowed(p.originalStrength, 0) && Children(p)[0].strength == 200
    ensures p.originalStrength == 50 ==> forall lf: nat :: !SplitAllowed(p.originalStrength, lf)
    ensures p.originalStrength == 100 ==> SplitAllowed(100, 4) && !SplitAllowed(100, 5)
  {
    assert Pow2(4) == 16 && Pow2(5) == 32;
    RoundHalf(400);
  }

  // ---------------------------------------------------------------------------
  // Score

  /** The score gained in the collision step is the total strength of the bullets
      the rocks absorbed (which is the strength taken off the rocks), and it never
      drops within a life. */
  lemma CollisionScoreIsAbsorbedStrength(w: World, width: nat, height: nat)
    requires Alive(w.bullets)
    ensures var bs := BulletPass(w.bullets, 0);
            var p := RockLoop(w.rocks, bs, w.score, 0, w.levelFactor, w.cannon, w.surface, width);
            var c := CheckCollisions(w, width, height);
            !p.reset ==> c.score - w.score == StrengthSum(bs) - StrengthSum(c.bullets) && c.score >= w.score
  {
  }

  /** One rock's bullet hits: what the score gains the rock loses, bullet by bullet. */
  lemma HitsTradeStrengthForScore(rock: Circle, bs: seq<Circle>, score: int)
    requires Alive(bs)
    ensures var h := Hits(rock, bs, 0, score);
            h.score - score == rock.strength - h.rock.strength == StrengthSum(bs) - StrengthSum(h.bullets) >= 0
            && (|h.bullets| < |bs| <==> h.rock.strength < rock.strength)
  {
  }

  // ---------------------------------------------------------------------------
  // Start state and reset

  lemma StartCannonFits(width: nat, height: nat)
    ensures CannonFits(StartCannon(width, height).dims.x, width)
  {
    var k := Round(width as real / 6.0);
    assert width as real - 3.0 < 6.0 * k as real <= width as real + 3.0;
  }

  /** The start cannon lies inside the arena. */
  lemma StartCannonInside(width: nat, height: nat)
    ensures CannonInside(StartCannon(width, height), width)
  {
    var m := Round(width as real / 2.0);
    var k := Round(width as real / 6.0);
    RoundHalf(width);
    assert width as real - 3.0 < 6.0 * k as real <= width as real + 3.0;
    assert width - 3 < 6 * k <= width + 3;
    assert 2 * m >= k && 2 * m + k <= 2 * width;
  }

  /** A rock touching the cannon resets the whole game: afterwards the state is
      exactly the start state (score, tick counter and level zero, no rocks, no
      bullets, cannon and surface at their start positions and sizes). */
  lemma CannonHitResets(w: World, width: nat, height: nat)
    ensures var p := RockLoop(w.rocks, BulletPass(w.bullets, 0), w.score, 0, w.levelFactor, w.cannon, w.surface, width);
            p.reset ==> CheckCollisions(w, width, height) == StartWorld(width, height)
  {
    StartCannonInside(width, height);
    ClampCannonInside(StartCannon(width, height), width);
  }

  /** The tick that resets the game leaves a fresh game one tick old. */
  lemma ResetTickIsFreshStart(w: World, width: nat, height: nat, d: RockDraw)
    ensures var v := w.(cannon := MoveRect(w.cannon));
            var p := RockLoop(v.rocks, BulletPass(v.bullets, 0), v.score, 0, v.levelFactor, v.cannon, v.surface, width);
            p.reset ==> Tick(w, width, height, d) == StartWorld(width, height).(interval := 1)
  {
    CannonHitResets(w.(cannon := MoveRect(w.cannon)), width, height);
  }

  // ---------------------------------------------------------------------------
  // Bounces and spawns

  /** Bouncing only depends on where the rock is, so bouncing twice in place
      restores the velocity. */
  lemma BounceTwiceIsIdentity(rk: Circle, surface: Rect, width: nat)
    ensures Bounce(Bounce(rk, surface, width), surface, width) == rk
  {
    var b := Bounce(rk, surface, width);
    assert CollidesWithRectAsWritten(b, surface) == CollidesWithRectAsWritten(rk, surface);
  }

  /** When a rock bounces: its vertical velocity is reversed exactly when it lies
      in the surface's box grown by its radius or pokes above the top edge, and
      its horizontal velocity exactly when it pokes out of a side (a zero
      component reads as reversed either way). */
  lemma BounceWhen(rk: Circle, surface: Rect, width: nat)
    ensures var r := Bounce(rk, surface, width);
            var c := rk.body.center;
            var v := rk.body.velocity;
            (r.body.velocity.y == -v.y <==>
               v.y == 0.0
               || (Abs(c.x - surface.body.center.x) <= surface.dims.x / 2.0 + rk.radius
                   && Abs(c.y - surface.body.center.y) <= surface.dims.y / 2.0 + rk.radius)
               || c.y < rk.radius)
            && (r.body.velocity.x == -v.x <==>
               v.x == 0.0 || c.x < rk.radius || c.x + rk.radius > width as real)
  {
    RectTestAsWrittenIsBoundingBox(rk, surface);
  }

  /** The bullet pair: two bullets of strength bulletStrength * 2^levelFactor at
      full strength, symmetric about the cannon's centre line, above its centre,
      flying straight up without acceleration. */
  lemma BulletPairShape(cannon: Rect, levelFactor: nat)
    requires 0.0 <= cannon.dims.y
    ensures var bs := BulletPair(cannon, levelFactor);
            |bs| == 2 && Alive(bs)
            && bs[0].strength == bs[1].strength == BulletStrength * Pow2(levelFactor)
            && bs[0].originalStrength == bs[1].originalStrength == bs[0].strength
            && bs[0].body.center.x + bs[1].body.center.x == 2.0 * cannon.body.center.x
            && bs[0].body.center.y == bs[1].body.center.y <= cannon.body.center.y
            && bs[0].body.velocity == bs[1].body.velocity == Vec(0.0, -3.0)
            && bs[0].body.acceleration == bs[1].body.acceleration == Vec(0.0, 0.0)
  {
  }

  /** A spawned rock: strength minRockStrength * 2^levelFactor, touching the wall
      it starts at, between one radius and half the width below the top, moving
      away from its wall at between half and all of the maximal horizontal
      speed, vertical speed within the maximum, falling under gravity, with one
      of the five rock shades. */
  lemma NewRockShape(width: nat, levelFactor: nat, d: RockDraw)
    requires 0.0 <= d.height < 1.0 && 0.0 <= d.speed < 1.0 && 0.0 <= d.heading < 1.0 && 0.0 <= d.shade < 1.0
    ensures var r := NewRock(width, levelFactor, d);
            r.strength == r.originalStrength == MinRockStrength * Pow2(levelFactor) > 0
            && r.radius == RockRadius(width) as real
            && r.radius <= r.body.center.y <= width as real / 2.0
            && (d.side > 0.5 ==> r.body.center.x - r.radius == 0.0 && 0.5 <= r.body.velocity.x < 1.0)
            && (d.side <= 0.5 ==> r.body.center.x + r.radius == width as real && -1.0 < r.body.velocity.x <= -0.5)
            && -1.0 <= r.body.velocity.y < 1.0
            && r.body.acceleration == Vec(0.0, Gravity)
            && r.look.RockLook? && 0 <= r.look.shade < RockShades
  {
  }

  // ---------------------------------------------------------------------------
  // Which circles the splicing loops drop

  /** The bullet loop read along the original array: each visited bullet is
      moved; a moved bullet that is gone is dropped, and the bullet behind it
      slides into the freed slot and escapes this pass unmoved. */
  function BulletSweep(s: seq<Circle>): seq<Circle>
    decreases |s|
  {
    if s == [] then []
    else if BulletGone(MoveCircle(s[0])) then (if |s| == 1 then [] else [s[1]] + BulletSweep(s[2..]))
    else [MoveCircle(s[0])] + BulletSweep(s[1..])
  }

  /** Slicing around an element overwritten at index i. */
  lemma SlicesAfterUpdate(s: seq<Circle>, i: nat, x: Circle)
    requires i < |s|
    ensures s[i := x][..i + 1] == s[..i] + [x]
    ensures s[i := x][i + 1..] == s[i + 1..]
    ensures s[i..] == [s[i]] + s[i + 1..]
  {
  }

  /** Slicing around index i after the element there was overwritten and
      spliced out: the element behind it has moved into slot i. */
  lemma SlicesAfterRemove(s: seq<Circle>, i: nat, x: Circle)
    requires i + 1 < |s|
    ensures Remove(s[i := x], i)[..i + 1] == s[..i] + [s[i + 1]]
    ensures Remove(s[i := x], i)[i + 1..] == s[i + 2..]
    ensures s[i..] == [s[i], s[i + 1]] + s[i + 2..]
  {
  }

  /** The bullet loop, started at index i, leaves the first i bullets alone and
      sweeps the rest. */
  lemma {:induction false} BulletPassIsSweep(bs: seq<Circle>, i: nat)
    requires i <= |bs|
    ensures BulletPass(bs, i) == bs[..i] + BulletSweep(bs[i..])
    decreases |bs| - i
  {
    if i == |bs| {
      assert bs[..i] == bs && bs[i..] == [];
    } else {
      var m := MoveCircle(bs[i]);
      var moved := bs[i := m];
      SlicesAfterUpdate(bs, i, m);
      if !BulletGone(m) {
        calc {
          BulletPass(bs, i);
          BulletPass(moved, i + 1);
          { BulletPassIsSweep(moved, i + 1); }
          (bs[..i] + [m]) + BulletSweep(bs[i + 1..]);
          bs[..i] + ([m] + BulletSweep(bs[i + 1..]));
          bs[..i] + BulletSweep(bs[i..]);
        }
      } else if i + 1 == |bs| {
        assert Remove(moved, i) == bs[..i];
        assert bs[i..] == [bs[i]];
      } else {
        SlicesAfterRemove(bs, i, m);
        var rest := Remove(moved, i);
        calc {
          BulletPass(bs, i);
          BulletPass(rest, i + 1);
          { BulletPassIsSweep(rest, i + 1); }
          (bs[..i] + [bs[i + 1]]) + BulletSweep(bs[i + 2..]);
          bs[..i] + ([bs[i + 1]] + BulletSweep(bs[i + 2..]));
          bs[..i] + BulletSweep(bs[i..]);
        }
      }
    }
  }

  lemma {:induction false} SweepMovesAll(s: seq<Circle>)
    requires forall j :: 0 <= j < |s| ==> !BulletGone(MoveCircle(s[j]))
    ensures |BulletSweep(s)| == |s|
    ensures forall j :: 0 <= j < |s| ==> BulletSweep(s)[j] == MoveCircle(s[j])
    decreases |s|
  {
    if s != [] {
      assert !BulletGone(MoveCircle(s[0]));
      SweepMovesAll(s[1..]);
      assert forall j :: 1 <= j < |s| ==> BulletSweep(s)[j] == BulletSweep(s[1..])[j - 1];
    }
  }

  /** When no moved bullet is gone, the bullet loop moves every bullet once and
      keeps them all, in their order. */
  lemma BulletPassMovesAll(bs: seq<Circle>)
    requires forall j :: 0 <= j < |bs| ==> !BulletGone(MoveCircle(bs[j]))
    ensures |BulletPass(bs, 0)| == |bs|
    ensures forall j :: 0 <= j < |bs| ==> BulletPass(bs, 0)[j] == MoveCircle(bs[j])
  {
    BulletPassIsSweep(bs, 0);
    assert bs[..0] + BulletSweep(bs[0..]) == BulletSweep(bs);
    SweepMovesAll(bs);
  }

  /** A bullet that leaves lets the bullet behind it through unmoved and
      untested, whatever that bullet is. */
  lemma GoneBulletLetsNextEscape(a: Circle, b: Circle)
    requires BulletGone(MoveCircle(a))
    ensures BulletPass([a, b], 0) == [b]
  {
    BulletPassIsSweep([a, b], 0);
    assert [a, b][0..] == [a, b] && [a, b][2..] == [];
  }

  /** The inner loop read along the original bullets: a bullet the rock touches
      is dropped, and the bullet behind it escapes the test in this pass. */
  function HitSweep(rock: Circle, s: seq<Circle>): seq<Circle>
    decreases |s|
  {
    if s == [] then []
    else if CollidesWithCircle(rock, s[0]) then (if |s| == 1 then [] else [s[1]] + HitSweep(rock, s[2..]))
    else [s[0]] + HitSweep(rock, s[1..])
  }

  /** The inner loop, started at bullet b, leaves the first b bullets alone and
      sweeps the rest; the rock's changing strength does not affect the test. */
  lemma {:induction false} HitsIsSweep(rock: Circle, bs: seq<Circle>, b: nat, score: int)
    requires b <= |bs|
    ensures Hits(rock, bs, b, score).bullets == bs[..b] + HitSweep(rock, bs[b..])
    decreases |bs| - b
  {
    if b == |bs| {
      assert bs[..b] == bs && bs[b..] == [];
    } else {
      SlicesAfterUpdate(bs, b, bs[b]);
      assert bs[b := bs[b]] == bs;
      if !CollidesWithCircle(rock, bs[b]) {
        calc {
          Hits(rock, bs, b, score).bullets;
          Hits(rock, bs, b + 1, score).bullets;
          { HitsIsSweep(rock, bs, b + 1, score); }
          (bs[..b] + [bs[b]]) + HitSweep(rock, bs[b + 1..]);
          bs[..b] + ([bs[b]] + HitSweep(rock, bs[b + 1..]));
          bs[..b] + HitSweep(rock, bs[b..]);
        }
      } else if b + 1 == |bs| {
        assert Remove(bs, b) == bs[..b];
        assert bs[b..] == [bs[b]];
      } else {
        var rk := rock.(strength := rock.strength - bs[b].strength);
        var rest := Remove(bs, b);
        SlicesAfterRemove(bs, b, bs[b]);
        calc {
          Hits(rock, bs, b, score).bullets;
          Hits(rk, rest, b + 1, score + bs[b].strength).bullets;
          { HitsIsSweep(rk, rest, b + 1, score + bs[b].strength); }
          rest[..b + 1] + HitSweep(rk, rest[b + 1..]);
          { HitSweepSameShape(rk, rock, rest[b + 1..]); }
          (bs[..b] + [bs[b + 1]]) + HitSweep(rock, bs[b + 2..]);
          bs[..b] + ([bs[b + 1]] + HitSweep(rock, bs[b + 2..]));
          bs[..b] + HitSweep(rock, bs[b..]);
        }
      }
    }
  }

  /** Two rocks of the same place and size sweep the same bullets. */
  lemma {:induction false} HitSweepSameShape(a: Circle, b: Circle, s: seq<Circle>)
    requires a.body == b.body && a.radius == b.radius
    ensures HitSweep(a, s) == HitSweep(b, s)
    decreases |s|
  {
    if s != [] {
      assert CollidesWithCircle(a, s[0]) == CollidesWithCircle(b, s[0]) by {
        assert a.body.center == b.body.center;
      }
      if CollidesWithCircle(b, s[0]) {
        if |s| >= 2 { HitSweepSameShape(a, b, s[2..]); }
      } else {
        HitSweepSameShape(a, b, s[1..]);
      }
    }
  }

  /** The bullets the sweep drops, in their order. */
  function HitDropped(rock: Circle, s: seq<Circle>): seq<Circle>
    decreases |s|
  {
    if s == [] then []
    else if CollidesWithCircle(rock, s[0]) then [s[0]] + (if |s| == 1 then [] else HitDropped(rock, s[2..]))
    else HitDropped(rock, s[1..])
  }

  /** Every bullet of the input is either kept or dropped by the sweep, once. */
  lemma {:induction false} HitSweepSplits(rock: Circle, s: seq<Circle>)
    ensures multiset(s) == multiset(HitSweep(rock, s)) + multiset(HitDropped(rock, s))
    decreases |s|
  {
    if s == [] {
    } else if !CollidesWithCircle(rock, s[0]) {
      var k, d := HitSweep(rock, s[1..]), HitDropped(rock, s[1..]);
      assert HitSweep(rock, s) == [s[0]] + k;
      assert HitDropped(rock, s) == d;
      calc {
        multiset(s);
        { assert s == [s[0]] + s[1..]; }
        multiset{s[0]} + multiset(s[1..]);
        { HitSweepSplits(rock, s[1..]); }
        multiset{s[0]} + (multiset(k) + multiset(d));
        multiset([s[0]] + k) + multiset(d);
      }
    } else if |s| == 1 {
      assert HitSweep(rock, s) == [];
      assert HitDropped(rock, s) == [s[0]] == s;
    } else {
      var k, d := HitSweep(rock, s[2..]), HitDropped(rock, s[2..]);
      assert HitSweep(rock, s) == [s[1]] + k;
      assert HitDropped(rock, s) == [s[0]] + d;
      calc {
        multiset(s);
        { assert s == [s[0]] + ([s[1]] + s[2..]); }
        multiset{s[0]} + (multiset{s[1]} + multiset(s[2..]));
        { HitSweepSplits(rock, s[2..]); }
        multiset{s[0]} + (multiset{s[1]} + (multiset(k) + multiset(d)));
        multiset([s[1]] + k) + multiset([s[0]] + d);
      }
    }
  }

  /** Every bullet the sweep drops touches the rock. */
  lemma {:induction false} HitDroppedTouch(rock: Circle, s: seq<Circle>)
    ensures forall j :: 0 <= j < |HitDropped(rock, s)| ==> CollidesWithCircle(rock, HitDropped(rock, s)[j])
    decreases |s|
  {
    if s == [] {
    } else if !CollidesWithCircle(rock, s[0]) {
      HitDroppedTouch(rock, s[1..]);
    } else if |s| >= 2 {
      HitDroppedTouch(rock, s[2..]);
    }
  }

  /** The bullets one rock's pass removes are bullets of the input, and each of
      them touches the rock. */
  lemma HitsRemoveOnlyTouching(rock: Circle, bs: seq<Circle>, score: int)
    ensures var h := Hits(rock, bs, 0, score);
            multiset(h.bullets) <= multiset(bs)
            && forall x :: x in multiset(bs) - multiset(h.bullets) ==> CollidesWithCircle(rock, x)
  {
    var h := Hits(rock, bs, 0, score);
    HitsIsSweep(rock, bs, 0, score);
    assert bs[..0] + HitSweep(rock, bs[0..]) == HitSweep(rock, bs);
    var dropped := HitDropped(rock, bs);
    HitSweepSplits(rock, bs);
    HitDroppedTouch(rock, bs);
    assert multiset(bs) - multiset(h.bullets) == multiset(dropped);
    forall x | x in multiset(dropped)
      ensures CollidesWithCircle(rock, x)
    {
      var j :| 0 <= j < |dropped| && dropped[j] == x;
    }
  }

  // ---------------------------------------------------------------------------
  // The rock pass

  /** Every rock moved once and then bounced, in order. */
  function MoveAndBounceAll(s: seq<Circle>, surface: Rect, width: nat): (r: seq<Circle>)
    ensures |r| == |s|
  {
    if s == [] then [] else [Bounce(MoveCircle(s[0]), surface, width)] + MoveAndBounceAll(s[1..], surface, width)
  }

  /** Without bullets no rock is depleted, so the rock loop from index i resets
      exactly when one of the rocks it visits touches the cannon once moved;
      otherwise each of those rocks is moved once and bounced, in order, and
      the score stays. */
  lemma {:induction false} RockLoopWithoutBullets(rs: seq<Circle>, s: int, i: nat, levelFactor: nat,
                                                  cannon: Rect, surface: Rect, width: nat)
    requires Alive(rs) && i <= |rs|
    ensures var p := RockLoop(rs, [], s, i, levelFactor, cannon, surface, width);
            (p.reset <==> exists j :: i <= j < |rs| && CollidesWithRectAsWritten(MoveCircle(rs[j]), cannon))
            && (!p.reset ==> p.rocks == rs[..i] + MoveAndBounceAll(rs[i..], surface, width)
                             && p.bullets == [] && p.score == s)
    decreases |rs| - i
  {
    if i == |rs| {
      assert rs[..i] == rs && rs[i..] == [];
    } else {
      var m := MoveCircle(rs[i]);
      RockTurnWithoutBullets(rs, s, i, levelFactor, cannon, surface, width);
      if !CollidesWithRectAsWritten(m, cannon) {
        var b := Bounce(m, surface, width);
        var bounced := rs[i := b];
        SlicesAfterUpdate(rs, i, b);
        RockLoopWithoutBullets(bounced, s, i + 1, levelFactor, cannon, surface, width);
        assert forall j :: i < j < |rs| ==> bounced[j] == rs[j];
        assert MoveAndBounceAll(rs[i..], surface, width) == [b] + MoveAndBounceAll(rs[i + 1..], surface, width) by {
          assert rs[i..][0] == rs[i] && rs[i..][1..] == rs[i + 1..];
        }
      }
    }
  }

  /** One turn of the rock loop without bullets: the moved rock resets the game
      if it touches the cannon and is otherwise bounced in its slot. */
  lemma RockTurnWithoutBullets(rs: seq<Circle>, s: int, i: nat, levelFactor: nat,
                               cannon: Rect, surface: Rect, width: nat)
    requires i < |rs| && rs[i].strength > 0
    ensures var m := MoveCircle(rs[i]);
            var p := RockLoop(rs, [], s, i, levelFactor, cannon, surface, width);
            if CollidesWithRectAsWritten(m, cannon) then p.reset
            else p == RockLoop(rs[i := Bounce(m, surface, width)], [], s, i + 1, levelFactor, cannon, surface, width)
  {
    RockLoopUnfold(rs, [], s, i, levelFactor, cannon, surface, width);
    var m := MoveCircle(rs[i]);
    assert Hits(m, [], 0, s) == HitResult(m, [], s);
    assert rs[i := m][i := Bounce(m, surface, width)] == rs[i := Bounce(m, surface, width)];
  }

  /** A collision step without bullets ends in the start state exactly when some
      rock touches the cannon once moved. */
  lemma TouchingRockResets(w: World, width: nat, height: nat)
    requires w.bullets == [] && Alive(w.rocks)
    ensures (exists j :: 0 <= j < |w.rocks| && CollidesWithRectAsWritten(MoveCircle(w.rocks[j]), w.cannon))
            ==> CheckCollisions(w, width, height) == StartWorld(width, height)
  {
    assert BulletPass(w.bullets, 0) == [];
    RockLoopWithoutBullets(w.rocks, w.score, 0, w.levelFactor, w.cannon, w.surface, width);
    CannonHitResets(w, width, height);
  }

  /** A rock that a bullet depletes, and that may not split, is spliced out; the
      rock behind it moves into its slot and is neither moved nor tested in this
      pass. */
  lemma DepletedRockLetsNextEscape(a: Circle, b: Circle, x: Circle, levelFactor: nat,
                                   cannon: Rect, surface: Rect, width: nat)
    requires CollidesWithCircle(MoveCircle(a), x) && x.strength >= a.strength
    requires !SplitAllowed(a.originalStrength, levelFactor)
    ensures var p := RockLoop([a, b], [x], 0, 0, levelFactor, cannon, surface, width);
            !p.reset && p.rocks == [b] && p.bullets == [] && p.score == x.strength
  {
    var m := MoveCircle(a);
    RockLoopUnfold([a, b], [x], 0, 0, levelFactor, cannon, surface, width);
    var h := Hits(m, [x], 0, 0);
    assert h == HitResult(m.(strength := m.strength - x.strength), [], x.strength) by {
      assert Remove([x], 0) == [];
    }
    assert Remove([a, b][0 := h.rock], 0) == [b];
  }

  // ---------------------------------------------------------------------------
  // Strength never exceeds its start

  lemma IntactRemove(s: seq<Circle>, i: nat)
    requires i < |s| && Intact(s)
    ensures Intact(Remove(s, i))
  {
    RemoveShifts(s, i);
  }

  lemma {:induction false} BulletPassKeepsIntact(bs: seq<Circle>, i: nat)
    requires Intact(bs)
    ensures Intact(BulletPass(bs, i))
    decreases |bs| - i
  {
    if i < |bs| {
      var moved := bs[i := MoveCircle(bs[i])];
      assert Intact(moved);
      if BulletGone(moved[i]) {
        IntactRemove(moved, i);
        BulletPassKeepsIntact(Remove(moved, i), i + 1);
      } else {
        BulletPassKeepsIntact(moved, i + 1);
      }
    }
  }

  lemma HitsKeepIntact(rock: Circle, bs: seq<Circle>, score: int)
    requires Intact(bs)
    ensures Intact(Hits(rock, bs, 0, score).bullets)
  {
    var h := Hits(rock, bs, 0, score);
    HitsRemoveOnlyTouching(rock, bs, score);
    forall j | 0 <= j < |h.bullets|
      ensures h.bullets[j].strength <= h.bullets[j].originalStrength
    {
      assert h.bullets[j] in multiset(h.bullets);
      assert h.bullets[j] in bs;
    }
  }

  /** The rock loop never leaves a rock or bullet stronger than it started. */
  lemma {:induction false} RockLoopKeepsIntact(rocks: seq<Circle>, bullets: seq<Circle>, score: int, i: nat,
                                               levelFactor: nat, cannon: Rect, surface: Rect, width: nat)
    requires Alive(bullets) && Intact(rocks) && Intact(bullets)
    ensures var r := RockLoop(rocks, bullets, score, i, levelFactor, cannon, surface, width);
            Intact(r.rocks) && Intact(r.bullets)
    decreases |bullets| + DepletedFrom(rocks, i), |rocks| - i
  {
    if i < |rocks| {
      RockLoopUnfold(rocks, bullets, score, i, levelFactor, cannon, surface, width);
      var h := Hits(MoveCircle(rocks[i]), bullets, 0, score);
      HitsKeepIntact(MoveCircle(rocks[i]), bullets, score);
      var hit := rocks[i := h.rock];
      assert Intact(hit);
      if Depleted(h.rock) {
        var kids := Offspring(h.rock, levelFactor);
        assert Intact(kids);
        assert Intact(hit + kids);
        IntactRemove(hit + kids, i);
        RockLoopKeepsIntact(Remove(hit + kids, i), h.bullets, h.score, i + 1, levelFactor, cannon, surface, width);
      } else if !CollidesWithRectAsWritten(h.rock, cannon) {
        var bounced := hit[i := Bounce(h.rock, surface, width)];
        assert Intact(bounced);
        RockLoopKeepsIntact(bounced, h.bullets, h.score, i + 1, levelFactor, cannon, surface, width);
      }
    }
  }

  /** The collision step keeps every strength within its start and the score
      non-negative. */
  lemma CollisionsKeepStrengthBounds(w: World, width: nat, height: nat)
    requires Alive(w.bullets) && Intact(w.rocks) && Intact(w.bullets) && 0 <= w.score
    ensures var c := CheckCollisions(w, width, height);
            Intact(c.rocks) && Intact(c.bullets) && 0 <= c.score
  {
    var bs := BulletPass(w.bullets, 0);
    BulletPassKeepsIntact(w.bullets, 0);
    RockLoopKeepsIntact(w.rocks, bs, w.score, 0, w.levelFactor, w.cannon, w.surface, width);
  }

  // ---------------------------------------------------------------------------
  // The tick

  /** Every tick keeps the invariant, and leaves the cannon inside the arena. */
  lemma TickKeepsInvariant(w: World, width: nat, height: nat, d: RockDraw)
    requires Invariant(w, width, height)
    ensures Invariant(Tick(w, width, height, d), width, height)
    ensures CannonInside(Tick(w, width, height, d).cannon, width)
  {
    CollisionsKeepInvariant(w, width, height);
    var c := AfterCollisions(w, width, height);
    BulletPairShape(c.cannon, c.levelFactor);
    var pair := BulletPair(c.cannon, c.levelFactor);
    assert Alive(pair) && Intact(pair);
    var rock := [NewRock(width, c.levelFactor, d)];
    assert Alive(rock) && Intact(rock);
    AppendKeepsBounds(c.bullets, pair);
    AppendKeepsBounds(c.rocks, rock);
  }

  /** The collision step keeps the invariant and leaves the cannon inside. */
  lemma CollisionsKeepInvariant(w: World, width: nat, height: nat)
    requires Invariant(w, width, height)
    ensures Invariant(AfterCollisions(w, width, height), width, height)
    ensures CannonInside(AfterCollisions(w, width, height).cannon, width)
  {
    StartCannonFits(width, height);
    var v := w.(cannon := MoveRect(w.cannon));
    var bs := BulletPass(v.bullets, 0);
    var p := RockLoop(v.rocks, bs, v.score, 0, v.levelFactor, v.cannon, v.surface, width);
    var w1 := if p.reset then StartWorld(width, height) else v.(rocks := p.rocks, bullets := p.bullets, score := p.score);
    ClampCannonInside(w1.cannon, width);
    var c := CheckCollisions(v, width, height);
    CollisionsKeepStrengthBounds(v, width, height);
    assert c.cannon.dims == StartCannon(width, height).dims;
    assert Alive(c.rocks) && Alive(c.bullets);
  }

  lemma AppendKeepsBounds(a: seq<Circle>, b: seq<Circle>)
    requires Alive(a) && Intact(a) && Alive(b) && Intact(b)
    ensures Alive(a + b) && Intact(a + b)
  {
  }

  /** The collision step leaves the tick counter alone unless it reset the game. */
  lemma CollisionsKeepCounter(w: World, width: nat, height: nat)
    ensures var c := AfterCollisions(w, width, height);
            c.interval == w.interval || (c.interval == 0 && c.score == 0 && c.levelFactor == 0)
  {
  }

  /** The spawn schedule: the counter advances by one and wraps to 0 at the rock
      interval; the bullet pair of the cannon is appended exactly when the
      advanced counter is a multiple of the bullet interval; one new rock is
      appended exactly when it wraps. */
  lemma TickSchedule(w: World, width: nat, height: nat, d: RockDraw)
    requires Invariant(w, width, height)
    ensures var c := AfterCollisions(w, width, height);
            var t := Tick(w, width, height, d);
            var n := c.interval + 1;
            t.interval == n % RockSpawnInterval
            && |t.bullets| == |c.bullets| + (if n % BulletSpawnInterval == 0 then 2 else 0)
            && t.bullets[..|c.bullets|] == c.bullets
            && |t.rocks| == |c.rocks| + (if n == RockSpawnInterval then 1 else 0)
            && t.rocks[..|c.rocks|] == c.rocks
            && (n == RockSpawnInterval ==> t.rocks[|c.rocks|].strength == MinRockStrength * Pow2(c.levelFactor))
            && t.bullets[|c.bullets|..] == (if n % BulletSpawnInterval == 0 then BulletPair(c.cannon, c.levelFactor) else [])
            && t.rocks[|c.rocks|..] == (if n == RockSpawnInterval then [NewRock(width, c.levelFactor, d)] else [])
            && t.score == c.score && t.cannon == c.cannon && t.surface == c.surface
  {
    CollisionsKeepCounter(w, width, height);
    SpawnSchedule(AfterCollisions(w, width, height), width, d);
  }

  /** The spawn step on its own, for any counter below the rock interval. */
  lemma SpawnSchedule(c: World, width: nat, d: RockDraw)
    requires 0 <= c.interval < RockSpawnInterval
    ensures var t := Spawn(c, width, d);
            var n := c.interval + 1;
            t.interval == n % RockSpawnInterval
            && |t.bullets| == |c.bullets| + (if n % BulletSpawnInterval == 0 then 2 else 0)
            && t.bullets[..|c.bullets|] == c.bullets
            && |t.rocks| == |c.rocks| + (if n == RockSpawnInterval then 1 else 0)
            && t.rocks[..|c.rocks|] == c.rocks
            && (n == RockSpawnInterval ==> t.rocks[|c.rocks|].strength == MinRockStrength * Pow2(c.levelFactor))
            && t.bullets[|c.bullets|..] == (if n % BulletSpawnInterval == 0 then BulletPair(c.cannon, c.levelFactor) else [])
            && t.rocks[|c.rocks|..] == (if n == RockSpawnInterval then [NewRock(width, c.levelFactor, d)] else [])
            && t.score == c.score && t.cannon == c.cannon && t.surface == c.surface
  {
    var n := c.interval + 1;
    var t := Spawn(c, width, d);
    assert t.bullets == if n % BulletSpawnInterval == 0 then c.bullets + BulletPair(c.cannon, c.levelFactor) else c.bullets;
    assert t.rocks == if n == RockSpawnInterval then c.rocks + [NewRock(width, c.levelFactor, d)] else c.rocks;
  }

  /** The level steps up by at most one per tick, and exactly when the score
      equals levelScore * 2^levelFactor. */
  lemma TickLevelStep(w: World, width: nat, height: nat, d: RockDraw)
    ensures var c := AfterCollisions(w, width, height);
            var t := Tick(w, width, height, d);
            t.levelFactor <= w.levelFactor + 1
            && (t.levelFactor == c.levelFactor + 1 <==> c.score == LevelScore * Pow2(c.levelFactor))
            && (t.levelFactor == c.levelFactor || t.levelFactor == c.levelFactor + 1)
  {
    CollisionsKeepCounter(w, width, height);
  }
}
