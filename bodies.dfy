/** Moving bodies of the arena: two-dimensional vectors, Euler integration,
    circles (rocks and bullets) and axis-aligned rectangles (cannon and surface),
    and the collision tests between them. Positions and velocities are exact reals. */
module Bodies {

  datatype Vec = Vec(x: real, y: real) {
    function Plus(o: Vec): Vec { Vec(x + o.x, y + o.y) }
    function Minus(o: Vec): Vec { Vec(x - o.x, y - o.y) }
    function Scale(k: real): Vec { Vec(k * x, k * y) }
  }

  function Abs(r: real): real { if r < 0.0 then -r else r }

  function Sq(r: real): real { r * r }

  /** JavaScript's Math.round: the nearest integer, halves rounded up. */
  function Round(x: real): (n: int)
    ensures x - 0.5 < n as real <= x + 0.5
  {
    (x + 0.5).Floor
  }

  /** Rounding half of an integer gives the integer's half, rounded up. */
  lemma RoundHalf(k: int)
    ensures 2 * Round(k as real / 2.0) == (if k % 2 == 0 then k else k + 1)
  {
    var m := Round(k as real / 2.0);
    assert k as real - 1.0 < 2.0 * m as real <= k as real + 1.0;
    assert k - 1 < 2 * m <= k + 1;
  }

  lemma PositiveProduct(x: real, y: real)
    requires 0.0 < x && 0.0 < y
    ensures 0.0 < x * y
  {
  }

  /** A fraction of a non-negative span lies within the span. */
  lemma ScaledWithin(t: real, span: real)
    requires 0.0 <= t <= 1.0 && 0.0 <= span
    ensures 0.0 <= t * span <= span
  {
    if 0.0 < t < 1.0 && 0.0 < span {
      PositiveProduct(t, span);
      PositiveProduct(1.0 - t, span);
      assert span - t * span == (1.0 - t) * span;
    }
  }

  /** A fraction below one of a span is below the span, unless both are zero. */
  lemma ScaledBelow(t: real, span: real)
    requires 0.0 <= t < 1.0 && 0.0 <= span
    ensures 0.0 <= t * span && (t * span < span || t * span == 0.0)
  {
    ScaledWithin(t, span);
    if 0.0 < span {
      PositiveProduct(1.0 - t, span);
      assert span - t * span == (1.0 - t) * span;
    }
  }

  /** Rounding a value in [0, hi), or zero, stays within hi when hi is a whole
      multiple of one half. */
  lemma RoundWithinHalves(x: real, hi: real, k: int)
    requires 0.0 <= x && (x < hi || x == 0.0) && 0.0 <= hi && 2.0 * hi == k as real
    ensures 0 <= Round(x) && Round(x) as real <= hi
  {
    var n := Round(x);
    if x != 0.0 {
      assert 2.0 * (n as real) < k as real + 1.0;
      assert 2 * n < k + 1;
    }
  }

  /** A fraction below one of a span that is a whole multiple of one half,
      rounded and put above a base, lies between the base and the span's end. */
  lemma RoundedScaleWithin(t: real, span: real, base: int, k: int)
    requires 0.0 <= t < 1.0 && 0.0 <= span && 2.0 * span == k as real
    ensures base as real <= (Round(t * span) + base) as real <= span + base as real
  {
    ScaledBelow(t, span);
    RoundWithinHalves(t * span, span, k);
  }

  /** Squaring is monotone on the non-negative reals, strictly so. */
  lemma SqMonotone(a: real, b: real)
    requires 0.0 <= a <= b
    ensures Sq(a) <= Sq(b)
    ensures a < b ==> Sq(a) < Sq(b)
  {
    assert b * b - a * a == (b - a) * (b + a);
    if a < b {
      PositiveProduct(b - a, b + a);
      assert b * b - a * a > 0.0;
    } else {
      assert b * b - a * a == 0.0;
    }
  }

  /** Squared Euclidean distance; the source takes its square root (ptDist). */
  function SqDist(a: Vec, b: Vec): real { Sq(a.x - b.x) + Sq(a.y - b.y) }

  // ---------------------------------------------------------------------------
  // Moving bodies

  datatype Body = Body(center: Vec, velocity: Vec, acceleration: Vec)

  /** One tick of motion: velocity gains the acceleration, then the centre gains the new velocity. */
  function Integrate(b: Body): (r: Body)
    ensures r.acceleration == b.acceleration
    ensures r.velocity.Minus(b.velocity) == b.acceleration
    ensures r.center.Minus(b.center) == r.velocity
  {
    var v := b.velocity.Plus(b.acceleration);
    Body(b.center.Plus(v), v, b.acceleration)
  }

  /** n consecutive ticks of motion. */
  function Steps(b: Body, n: nat): Body
    decreases n
  {
    if n == 0 then b else Steps(Integrate(b), n - 1)
  }

  /** The closed form of n ticks along one axis, from start c, velocity v, acceleration a. */
  function Travel(c: real, v: real, a: real, n: real): real
  {
    c + n * v + (n * (n + 1.0) / 2.0) * a
  }

  /** One tick followed by n ticks is n + 1 ticks. */
  lemma TravelStep(c: real, v: real, a: real, n: real)
    ensures Travel(c + (v + a), v + a, a, n) == Travel(c, v, a, n + 1.0)
  {
    assert n * (v + a) == n * v + n * a;
    assert (n + 1.0) * v == n * v + v;
    assert (n + 1.0) * (n + 2.0) / 2.0 == n * (n + 1.0) / 2.0 + n + 1.0;
    assert ((n + 1.0) * (n + 2.0) / 2.0) * a == (n * (n + 1.0) / 2.0) * a + n * a + a;
  }

  /** After n ticks under constant acceleration a, the velocity is v + n a and
      the centre is c + n v + n (n + 1) / 2 a, component by component. */
  lemma {:induction false} IntegrateSteps(b: Body, n: nat)
    decreases n
    ensures Steps(b, n).acceleration == b.acceleration
    ensures Steps(b, n).velocity == b.velocity.Plus(b.acceleration.Scale(n as real))
    ensures Steps(b, n).center.x == Travel(b.center.x, b.velocity.x, b.acceleration.x, n as real)
    ensures Steps(b, n).center.y == Travel(b.center.y, b.velocity.y, b.acceleration.y, n as real)
  {
    if n > 0 {
      var b1 := Integrate(b);
      IntegrateSteps(b1, n - 1);
      var t := (n - 1) as real;
      var a := b.acceleration;
      assert t * (b.velocity.x + a.x) + a.x == (t + 1.0) * a.x + t * b.velocity.x;
      assert t * (b.velocity.y + a.y) + a.y == (t + 1.0) * a.y + t * b.velocity.y;
      TravelStep(b.center.x, b.velocity.x, a.x, t);
      TravelStep(b.center.y, b.velocity.y, a.y, t);
    }
  }

  // ---------------------------------------------------------------------------
  // Circles and rectangles

  /** Opaque colour and image tags; the simulation only copies them. */
  datatype Look = CannonLook | SurfaceLook | BulletLook | RockLook(shade: int)

  datatype Circle = Circle(body: Body, radius: real, strength: int, originalStrength: int, look: Look)

  datatype Rect = Rect(body: Body, dims: Vec, look: Look)

  /** The Circle constructor: a new circle starts at full strength. */
  function MakeCircle(center: Vec, radius: real, velocity: Vec, acceleration: Vec, strength: int, look: Look): (c: Circle)
    ensures c.strength == c.originalStrength == strength
  {
    Circle(Body(center, velocity, acceleration), radius, strength, strength, look)
  }

  /** The Rect constructor: a rectangle starts at rest, with no acceleration. */
  function MakeRect(center: Vec, dims: Vec, look: Look): (r: Rect)
    ensures r.body.velocity == Vec(0.0, 0.0) && r.body.acceleration == Vec(0.0, 0.0)
  {
    Rect(Body(center, Vec(0.0, 0.0), Vec(0.0, 0.0)), dims, look)
  }

  function MoveCircle(c: Circle): Circle { c.(body := Integrate(c.body)) }

  function MoveRect(r: Rect): Rect { r.(body := Integrate(r.body)) }

  /** isOut: a circle is depleted once its strength is used up. */
  predicate Depleted(c: Circle) { c.strength <= 0 }

  /** isCollideWithCircle: the distance of the centres is at most the sum of the
      radii. The square root is avoided: sqrt(d2) <= s iff 0 <= s and d2 <= s * s. */
  predicate CollidesWithCircle(a: Circle, b: Circle)
  {
    var s := a.radius + b.radius;
    0.0 <= s && SqDist(a.body.center, b.body.center) <= s * s
  }

  /** For any d that is the (non-negative) distance of the centres, the test is d <= r1 + r2. */
  lemma CircleTestIsDistanceTest(a: Circle, b: Circle, d: real)
    requires 0.0 <= d && d * d == SqDist(a.body.center, b.body.center)
    ensures CollidesWithCircle(a, b) <==> d <= a.radius + b.radius
  {
    var s := a.radius + b.radius;
    if d <= s {
      SqMonotone(d, s);
    } else if 0.0 <= s {
      SqMonotone(s, d);
    }
  }

  /** Circle-circle collision does not depend on the order of the two circles. */
  lemma CircleTestSymmetric(a: Circle, b: Circle)
    ensures CollidesWithCircle(a, b) == CollidesWithCircle(b, a)
  {
    assert Sq(a.body.center.x - b.body.center.x) == Sq(b.body.center.x - a.body.center.x);
    assert Sq(a.body.center.y - b.body.center.y) == Sq(b.body.center.y - a.body.center.y);
  }

  /** isCollideWithRect exactly as the source writes it: its corner test
      SUBTRACTS the two squared corner offsets instead of adding them. */
  predicate CollidesWithRectAsWritten(c: Circle, r: Rect)
  {
    var dx := Abs(c.body.center.x - r.body.center.x);
    var dy := Abs(c.body.center.y - r.body.center.y);
    if dx > r.dims.x / 2.0 + c.radius then false
    else if dy > r.dims.y / 2.0 + c.radius then false
    else if dx <= r.dims.x / 2.0 then true
    else if dy <= r.dims.y / 2.0 then true
    else Sq(dx - r.dims.x / 2.0) - Sq(dy - r.dims.y / 2.0) <= Sq(c.radius)
  }

  /** The corner test as intended: the squared distance from the centre to the
      nearest corner is at most the squared radius. */
  predicate CollidesWithRect(c: Circle, r: Rect)
  {
    var dx := Abs(c.body.center.x - r.body.center.x);
    var dy := Abs(c.body.center.y - r.body.center.y);
    if dx > r.dims.x / 2.0 + c.radius then false
    else if dy > r.dims.y / 2.0 + c.radius then false
    else if dx <= r.dims.x / 2.0 then true
    else if dy <= r.dims.y / 2.0 then true
    else Sq(dx - r.dims.x / 2.0) + Sq(dy - r.dims.y / 2.0) <= Sq(c.radius)
  }

  /** The as-written test never rejects in its corner branch, so it is the test
      against the rectangle grown by the radius on every side. */
  lemma RectTestAsWrittenIsBoundingBox(c: Circle, r: Rect)
    ensures CollidesWithRectAsWritten(c, r) <==>
              (Abs(c.body.center.x - r.body.center.x) <= r.dims.x / 2.0 + c.radius &&
               Abs(c.body.center.y - r.body.center.y) <= r.dims.y / 2.0 + c.radius)
  {
    var dx := Abs(c.body.center.x - r.body.center.x);
    var dy := Abs(c.body.center.y - r.body.center.y);
    var ex, ey := dx - r.dims.x / 2.0, dy - r.dims.y / 2.0;
    if 0.0 < ex <= c.radius && 0.0 < ey <= c.radius {
      SqMonotone(ex, c.radius);
      SqMonotone(0.0, ey);
    }
  }

  /** A circle that misses the rectangle's corner but is reported as touching it. */
  lemma RectTestAsWrittenCounterexample()
    ensures var c := MakeCircle(Vec(1.9, 1.9), 1.0, Vec(0.0, 0.0), Vec(0.0, 0.0), 1, BulletLook);
            var r := MakeRect(Vec(0.0, 0.0), Vec(2.0, 2.0), CannonLook);
            CollidesWithRectAsWritten(c, r) && !CollidesWithRect(c, r)
  {
  }

  /** The corrected test is the distance from the centre to the nearest point of
      the rectangle, compared with the radius. */
  lemma RectTestIsNearestPointTest(c: Circle, r: Rect)
    requires 0.0 <= c.radius
    ensures var px := Abs(c.body.center.x - r.body.center.x) - r.dims.x / 2.0;
            var py := Abs(c.body.center.y - r.body.center.y) - r.dims.y / 2.0;
            CollidesWithRect(c, r) <==>
              Sq(if px < 0.0 then 0.0 else px) + Sq(if py < 0.0 then 0.0 else py) <= Sq(c.radius)
  {
    var px := Abs(c.body.center.x - r.body.center.x) - r.dims.x / 2.0;
    var py := Abs(c.body.center.y - r.body.center.y) - r.dims.y / 2.0;
    var rad := c.radius;
    if px > rad {
      SqMonotone(rad, px);
      SqMonotone(0.0, if py < 0.0 then 0.0 else py);
    } else if py > rad {
      SqMonotone(rad, py);
      SqMonotone(0.0, if px < 0.0 then 0.0 else px);
    } else {
      if 0.0 < px { SqMonotone(px, rad); }
      if 0.0 < py { SqMonotone(py, rad); }
    }
  }

  /** The as-written test accepts everything the corrected test accepts. */
  lemma RectTestAsWrittenOverApproximates(c: Circle, r: Rect)
    ensures CollidesWithRect(c, r) ==> CollidesWithRectAsWritten(c, r)
  {
    var ey := Abs(c.body.center.y - r.body.center.y) - r.dims.y / 2.0;
    assert Sq(ey) >= 0.0;
  }
}
