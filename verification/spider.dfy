/** The spider: it enters from a side edge of the lower half of the window,
    wanders there at a constant speed, turns at random, tramples every
    mushroom it touches and comes back a few seconds after being shot. */
module Spiders {
  import opened Globals
  import opened Mushrooms

  /** Seconds a shot spider stays away. */
  const SpawnDelay := 3

  /** Percent chance per frame of a random change of direction. */
  const TurnChance := 2

  /** Percent chance that a respawn happens at the left edge. */
  const LeftChance := 50

  // ---------------------------------------------------------------------
  // Random draws
  // ---------------------------------------------------------------------

  /** `getRandomChance(percentage)` on a draw from 1..100. */
  function Chance(percentage: int, draw: int): bool
    requires 1 <= draw <= 100
  {
    draw <= percentage
  }

  /** How many of the draws 1..n make `Chance(percentage, _)` succeed. */
  function Hits(percentage: int, n: nat): (c: nat)
    requires n <= 100
    ensures c <= n
  {
    if n == 0 then 0 else Hits(percentage, n - 1) + (if Chance(percentage, n) then 1 else 0)
  }

  /** Of the 100 equally likely draws, exactly `percentage` succeed (clamped
      to 0..100): the chance is the percentage it is named after. */
  lemma {:induction false} ChanceIsPercentage(percentage: int, n: nat)
    requires n <= 100
    ensures Hits(percentage, n) == if percentage < 0 then 0 else if percentage < n then percentage else n
  {
    if n > 0 {
      ChanceIsPercentage(percentage, n - 1);
    }
  }

  /** `getRandomDirection` draws from -1, 0 and 1. */
  predicate Unit(v: int) {
    -1 <= v <= 1
  }

  /** `dx * dx + dy * dy` as the float handed to the square root. */
  function SumSq(a: int, b: int): real {
    (a * a + b * b) as real
  }

  /** What the model relies on about `std::sqrt(dx * dx + dy * dy)` for a
      whole-number vector: the length is no shorter than either component
      and no longer than both together, and along an axis it is that
      component's size. */
  ghost predicate MeasuresLength(root: real -> real) {
    forall a: int, b: int {:trigger root(SumSq(a, b))} ::
      && Abs(a) as real <= root(SumSq(a, b)) && Abs(b) as real <= root(SumSq(a, b))
      && root(SumSq(a, b)) <= (Abs(a) + Abs(b)) as real
      && (b == 0 ==> root(SumSq(a, b)) == Abs(a) as real)
      && (a == 0 ==> root(SumSq(a, b)) == Abs(b) as real)
  }

  // ---------------------------------------------------------------------
  // Directions
  // ---------------------------------------------------------------------

  /** Storing a float into an `int`: truncation towards zero. */
  function Trunc(v: real): (t: int)
    ensures 0.0 <= v ==> 0 <= t && t as real <= v < t as real + 1.0
    ensures v < 0.0 ==> t <= 0 && t as real - 1.0 < v <= t as real
  {
    if 0.0 <= v then v.Floor else -((-v).Floor)
  }

  /** The normalisation of `update`: a non-zero direction is scaled so that
      its length is the speed, each component truncated back to an `int`. */
  function Normalised(dx: int, dy: int, speed: int, root: real -> real): (int, int)
  {
    Scaled(dx, dy, speed, root(SumSq(dx, dy)))
  }

  /** The direction scaled by `speed / m` when the length `m` is positive,
      each component truncated back to an `int`; unchanged otherwise. */
  function Scaled(dx: int, dy: int, speed: int, m: real): (int, int)
  {
    if m > 0.0 then (Trunc(dx as real * (speed as real / m)), Trunc(dy as real * (speed as real / m)))
    else (dx, dy)
  }

  /** Same sign or zero. */
  predicate Along(n: int, v: int) {
    (n > 0 ==> v > 0) && (n < 0 ==> v < 0)
  }

  /** Absolute value. */
  function Abs(v: int): nat {
    if v < 0 then -v else v
  }

  /** A part of a positive whole, scaled to `s`, is at most `s`. */
  lemma ScaledBound(a: real, s: real, m: real)
    requires 0.0 <= a <= m && 0.0 < m && 0.0 <= s
    ensures 0.0 <= a * (s / m) <= s
  {
    assert a / m <= 1.0;
    assert a * (s / m) == (a / m) * s;
    assert (a / m) * s <= 1.0 * s by {
      assert (1.0 - a / m) * s >= 0.0;
    }
  }

  /** One component of the normalisation: it keeps its sign or drops to
      zero, and never exceeds the speed. */
  lemma ComponentBound(v: int, m: real, speed: int)
    requires 0 <= speed && 0.0 < m && Abs(v) as real <= m
    ensures Along(Trunc(v as real * (speed as real / m)), v)
    ensures Abs(Trunc(v as real * (speed as real / m))) <= speed
  {
    var a := Abs(v) as real;
    ScaledBound(a, speed as real, m);
    if v < 0 {
      assert v as real * (speed as real / m) == -(a * (speed as real / m));
    } else {
      assert v as real * (speed as real / m) == a * (speed as real / m);
    }
  }

  /** Along an axis the vector's length is the component's size, so the
      scaled component is exactly the speed. */
  lemma AxisScale(v: int, m: real, speed: int)
    requires v != 0 && m == Abs(v) as real && 0 <= speed
    ensures Trunc(v as real * (speed as real / m)) == if v > 0 then speed else -speed
  {
    if v > 0 {
      assert v as real * (speed as real / m) == speed as real;
    } else {
      assert v as real * (speed as real / m) == -(speed as real);
    }
  }

  /** Both components scaled by `speed / m`, where `m` is at least either
      component's size and equals it along an axis. */
  lemma ScaledPair(dx: int, dy: int, speed: int, m: real)
    requires 0 <= speed && 0.0 < m && Abs(dx) as real <= m && Abs(dy) as real <= m
    requires dy == 0 ==> m == Abs(dx) as real
    requires dx == 0 ==> m == Abs(dy) as real
    ensures var n := Scaled(dx, dy, speed, m);
            && Along(n.0, dx) && Along(n.1, dy)
            && Abs(n.0) <= speed && Abs(n.1) <= speed
            && (dy == 0 ==> n == (if dx > 0 then speed else -speed, 0))
            && (dx == 0 ==> n == (0, if dy > 0 then speed else -speed))
  {
    var sx, sy := dx as real * (speed as real / m), dy as real * (speed as real / m);
    assert Scaled(dx, dy, speed, m) == (Trunc(sx), Trunc(sy));
    ComponentBound(dx, m, speed);
    ComponentBound(dy, m, speed);
    if dy == 0 && dx != 0 {
      AxisScale(dx, m, speed);
      assert sy == 0.0 && Trunc(sy) == 0;
    }
    if dx == 0 && dy != 0 {
      AxisScale(dy, m, speed);
      assert sx == 0.0 && Trunc(sx) == 0;
    }
  }

  /** Normalisation never reverses a component, never makes one longer than
      the speed, and a still spider stays still; along an axis it moves
      exactly `speed`. */
  lemma NormalisedBound(dx: int, dy: int, speed: int, root: real -> real)
    requires MeasuresLength(root) && 0 <= speed
    ensures var n := Normalised(dx, dy, speed, root);
            && Along(n.0, dx) && Along(n.1, dy)
            && Abs(n.0) <= speed && Abs(n.1) <= speed
            && (dx == 0 && dy == 0 ==> n == (0, 0))
            && (dx != 0 && dy == 0 ==> n == (if dx > 0 then speed else -speed, 0))
            && (dx == 0 && dy != 0 ==> n == (0, if dy > 0 then speed else -speed))
  {
    var m := root(SumSq(dx, dy));
    assert Abs(dx) as real <= m && Abs(dy) as real <= m;
    assert dy == 0 ==> m == Abs(dx) as real;
    assert dx == 0 ==> m == Abs(dy) as real;
    assert Normalised(dx, dy, speed, root) == Scaled(dx, dy, speed, m);
    if m > 0.0 {
      ScaledPair(dx, dy, speed, m);
    }
  }

  /** `changeDirection`: the drawn direction, except that a still draw
      becomes down-right. */
  function Redirect(a: int, b: int): (r: (int, int))
    requires Unit(a) && Unit(b)
    ensures r != (0, 0) && Unit(r.0) && Unit(r.1)
    ensures (a, b) != (0, 0) ==> r == (a, b)
  {
    if a == 0 && b == 0 then (1, 1) else (a, b)
  }

  // ---------------------------------------------------------------------
  // Placement, flight and trampling
  // ---------------------------------------------------------------------

  /** Position and direction of the spider. */
  datatype Pose = Pose(x: real, y: real, dx: int, dy: int)

  /** The draws one `reset` makes: the side, the height and the vertical
      direction. */
  datatype Respawn = Respawn(side: int, y: real, dir: int)

  /** Draws `reset` can make for a sprite of this size: a percentage draw,
      a height in the lower half of the window above the sprite's own
      height, and a unit direction. */
  predicate Drawable(r: Respawn, size: Size, d: Dims) {
    && 1 <= r.side <= 100 && Unit(r.dir)
    && (d.windowHeight as real) * 0.5 <= r.y <= (d.windowHeight - size.height) as real
  }

  /** `reset`'s placement: the left edge on a lucky draw, otherwise flush
      with the right edge; heading inwards, with the drawn vertical
      direction. */
  function Placement(r: Respawn, size: Size, d: Dims): (p: Pose)
    requires Drawable(r, size, d)
    ensures p.y == r.y && (d.windowHeight as real) * 0.5 <= p.y
    ensures p.x == 0.0 || p.x == (d.windowWidth - size.width) as real
    ensures p.dx == 1 <==> p.x == 0.0
    ensures p.dx == 1 || p.dx == -1
    ensures p.dy == r.dir
  {
    var x := if Chance(LeftChance, r.side) then 0.0 else (d.windowWidth - size.width) as real;
    var dx := if x == 0.0 then 1 else -1;
    var dy := r.dir;
    // The source's guard against a still spider, which would point it
    // diagonally away from its side, cannot fire: dx is 1 or -1.
    if dy == 0 && dx == 0 then assert false; Pose(x, r.y, dx, dx)
    else Pose(x, r.y, dx, dy)
  }

  /** The part of `update` that moves a live spider: normalise, step, and
      reverse any component whose next step would leave the window
      sideways or the lower half of the window vertically. */
  function Flown(p: Pose, speed: int, root: real -> real, size: Size, d: Dims): (q: Pose)
  {
    var n := Normalised(p.dx, p.dy, speed, root);
    var x, y := p.x + n.0 as real, p.y + n.1 as real;
    var dx := if x + n.0 as real < 0.0 || x + n.0 as real + size.width as real > d.windowWidth as real
              then -n.0 else n.0;
    var dy := if y + n.1 as real < 0.5 * d.windowHeight as real
                 || y + n.1 as real + size.height as real > d.windowHeight as real
              then -n.1 else n.1;
    Pose(x, y, dx, dy)
  }

  /** At a speed of at least 2 (the spider starts at 2), normalising a unit
      direction that is not still gives a non-zero component exactly where
      the direction has one: truncation does not stop the spider. */
  lemma NormalisedMoves(dx: int, dy: int, speed: int, root: real -> real)
    requires MeasuresLength(root) && 2 <= speed && Unit(dx) && Unit(dy) && (dx != 0 || dy != 0)
    ensures var n := Normalised(dx, dy, speed, root);
            (n.0 != 0 <==> dx != 0) && (n.1 != 0 <==> dy != 0)
  {
    var m := root(SumSq(dx, dy));
    assert 1.0 <= m <= 2.0;
    var f := speed as real / m;
    RatioAtLeastOne(speed as real, m);
    assert Normalised(dx, dy, speed, root) == (Trunc(dx as real * f), Trunc(dy as real * f));
    UnitScaledMoves(dx, f);
    UnitScaledMoves(dy, f);
  }

  /** A quotient of a number by a positive number no larger is at least one. */
  lemma RatioAtLeastOne(s: real, m: real)
    requires 0.0 < m <= s
    ensures s / m >= 1.0
  {
    var f := s / m;
    assert (f - 1.0) * m == s - m;
  }

  /** A unit component scaled by at least one truncates to a non-zero whole
      number exactly when it was non-zero. */
  lemma UnitScaledMoves(v: int, f: real)
    requires Unit(v) && 1.0 <= f
    ensures Trunc(v as real * f) != 0 <==> v != 0
  {
    if v == 0 {
      assert v as real * f == 0.0;
    } else if v == 1 {
      assert v as real * f == f;
    } else {
      assert v as real * f == -f;
    }
  }

  /** A frame's flight moves the spider at most `speed` along each axis and
      leaves it with a direction no longer than `speed` along each axis.
      Each component is truncated to a whole number, so a diagonal step is
      shorter than `speed`. */
  lemma FlownBound(p: Pose, speed: int, root: real -> real, size: Size, d: Dims)
    requires MeasuresLength(root) && 0 <= speed
    ensures var q := Flown(p, speed, root, size, d);
            && -(speed as real) <= q.x - p.x <= speed as real
            && -(speed as real) <= q.y - p.y <= speed as real
            && Abs(q.dx) <= speed && Abs(q.dy) <= speed
  {
    NormalisedBound(p.dx, p.dy, speed, root);
  }

  /** A frame's flight steps by the normalised direction, and afterwards
      each component of the direction is that normalised component, reversed
      exactly when the next step along it would leave the spider's area. */
  lemma FlownReflects(p: Pose, speed: int, root: real -> real, size: Size, d: Dims)
    ensures var n := Normalised(p.dx, p.dy, speed, root);
            var q := Flown(p, speed, root, size, d);
            && q.x == p.x + n.0 as real && q.y == p.y + n.1 as real
            && (n.0 != 0 ==> (q.dx == -n.0 <==> q.x + n.0 as real < 0.0
                                                || q.x + n.0 as real + size.width as real > d.windowWidth as real))
            && (n.0 == 0 ==> q.dx == 0)
            && (n.1 != 0 ==> (q.dy == -n.1 <==> q.y + n.1 as real < 0.5 * d.windowHeight as real
                                                || q.y + n.1 as real + size.height as real > d.windowHeight as real))
            && (n.1 == 0 ==> q.dy == 0)
  {
  }

  /** A freshly placed spider starts with a unit direction that is never
      still; by `NormalisedMoves`, at a speed of at least 2 its next
      normalisation keeps it moving along each axis that direction names. */
  lemma PlacementMoves(r: Respawn, size: Size, d: Dims)
    requires Drawable(r, size, d)
    ensures var p := Placement(r, size, d);
            (p.dx, p.dy) != (0, 0) && Unit(p.dx) && Unit(p.dy)
  {
  }

  /** `checkMushroomCollision` on a list: every mushroom the spider overlaps
      drops to zero health, whatever its health was; nothing is removed. */
  function Trampled(ms: seq<Mushroom>, r: Rect, d: Dims): (t: seq<Mushroom>)
    ensures |t| == |ms|
    ensures forall k :: 0 <= k < |ms| ==>
              t[k] == if Intersects(r, ms[k].Bounds(d)) then ms[k].(health := 0) else ms[k]
    decreases |ms|
  {
    if ms == [] then []
    else
      var m := ms[|ms| - 1];
      Trampled(ms[..|ms| - 1], r, d) + [if Intersects(r, m.Bounds(d)) then m.(health := 0) else m]
  }

  /** After trampling no mushroom under the spider has health left, every
      mushroom keeps its id and place, and trampling again changes nothing. */
  lemma TrampledClears(ms: seq<Mushroom>, r: Rect, d: Dims)
    ensures var t := Trampled(ms, r, d);
            && (forall k :: 0 <= k < |t| && Intersects(r, t[k].Bounds(d)) ==> t[k].health == 0)
            && (forall k :: 0 <= k < |t| ==> t[k].id == ms[k].id && t[k].x == ms[k].x && t[k].y == ms[k].y)
            && Trampled(t, r, d) == t
  {
    var t := Trampled(ms, r, d);
    var tt := Trampled(t, r, d);
    forall k | 0 <= k < |t| ensures tt[k] == t[k] {
      assert t[k].Bounds(d) == ms[k].Bounds(d);
    }
  }

  // ---------------------------------------------------------------------
  // The spider
  // ---------------------------------------------------------------------

  class Spider {
    var initialSpeed: int
    var speed: int
    var dx: int
    var dy: int
    var status: CharacterStatus
    var x: real
    var y: real
    var spawnDelay: int
    /** When the spawn clock was last restarted, in seconds. */
    var spawnStart: real
    /** The sprite's bounds size: zero until the texture is set. */
    var size: Size

    function Where(): Pose
      reads this
    {
      Pose(x, y, dx, dy)
    }

    function Bounds(): Rect
      reads this
    {
      Box(x, y, size)
    }

    /** `Spider(initialSpeed)`: alive, clock started, and placed by `reset`
        while the sprite still has no texture and so no size. */
    constructor (initialSpeed: int, now: real, r: Respawn, d: Dims)
      requires Drawable(r, Size(0, 0), d)
      ensures this.initialSpeed == initialSpeed && speed == initialSpeed
      ensures status == Alive && spawnStart == now && spawnDelay == SpawnDelay
      ensures size == Size(0, 0) && Where() == Placement(r, Size(0, 0), d)
    {
      this.initialSpeed := initialSpeed;
      speed := initialSpeed;
      spawnStart := now;
      spawnDelay := SpawnDelay;
      status := Alive;
      size := Size(0, 0);
      new;
      Reset(true, r, d);
    }

    /** `spiderInit` sets the texture after construction; from then on the
        spider has its sprite's size. */
    method SetTexture(d: Dims)
      modifies this`size
      ensures size == d.spider
    {
      size := d.spider;
    }

    /** `reset(resetSpeed)`. */
    method Reset(resetSpeed: bool, r: Respawn, d: Dims)
      requires Drawable(r, size, d)
      modifies this`status, this`x, this`y, this`dx, this`dy, this`speed
      ensures status == Alive && Where() == Placement(r, size, d)
      ensures speed == if resetSpeed then initialSpeed else old(speed)
    {
      status := Alive;
      var newX := if Chance(LeftChance, r.side) then 0.0 else (d.windowWidth - size.width) as real;
      var newY := r.y;
      x, y := newX, newY;
      dx := if newX == 0.0 then 1 else -1;
      dy := r.dir;
      if dy == 0 && dx == 0 {
        // The source's guard against a still spider: dx is 1 or -1 here.
        assert false;
      }
      if resetSpeed {
        speed := initialSpeed;
      }
    }

    /** `changeDirection` with the two direction draws. */
    method ChangeDirection(a: int, b: int)
      requires Unit(a) && Unit(b)
      modifies this`dx, this`dy
      ensures (dx, dy) == Redirect(a, b)
    {
      dx := a;
      dy := b;
      if dx == 0 && dy == 0 {
        dx := 1;
        dy := 1;
      }
    }

    /** `handleCollision`: the spider dies and its spawn clock restarts. */
    method HandleCollision(now: real)
      modifies this`status, this`spawnStart
      ensures status == Dead && spawnStart == now
    {
      status := Dead;
      spawnStart := now;
    }

    method SetSpeed(s: int)
      modifies this`speed
      ensures speed == s
    {
      speed := s;
    }

    /** `checkMushroomCollision`: every mushroom overlapping the spider gets
        zero health. */
    method CheckMushroomCollision(field: Field, d: Dims)
      modifies field
      ensures field.items == Trampled(old(field.items), Bounds(), d)
    {
      ghost var goal := Trampled(field.items, Bounds(), d);
      var i := 0;
      while i < |field.items|
        invariant 0 <= i <= |field.items| == |old(field.items)|
        invariant forall k :: 0 <= k < i ==> field.items[k] == goal[k]
        invariant forall k :: i <= k < |field.items| ==> field.items[k] == old(field.items)[k]
        decreases |field.items| - i
      {
        if Intersects(Bounds(), field.items[i].Bounds(d)) {
          field.SetHealth(i, 0);
        }
        i := i + 1;
      }
    }

    /** Whether a dead spider is still waiting out its spawn delay at time
        `now`. */
    predicate Waiting(now: real)
      reads this
    {
      status == Dead && !(now - spawnStart > spawnDelay as real)
    }

    /** The movement step of `update`: normalise, move, and reverse a
        component whose next step would leave the spider's area. */
    method Fly(root: real -> real, d: Dims)
      modifies this`x, this`y, this`dx, this`dy
      ensures Where() == Flown(old(Where()), speed, root, size, d)
    {
      var n := Normalised(dx, dy, speed, root);
      dx, dy := n.0, n.1;
      x, y := x + dx as real, y + dy as real;
      var nextX, nextY := x + dx as real, y + dy as real;
      if nextX < 0.0 || nextX + size.width as real > d.windowWidth as real {
        dx := -dx;
      }
      if nextY < 0.5 * d.windowHeight as real || nextY + size.height as real > d.windowHeight as real {
        dy := -dy;
      }
    }

    /** `update` with this frame's draws: `r` for a respawn, `chanceDraw`
        for the random turn and (`turnX`, `turnY`) for its new direction;
        `root` is the square root used to normalise. */
    method Update(now: real, r: Respawn, root: real -> real, chanceDraw: int, turnX: int, turnY: int,
                  field: Field, d: Dims)
      requires Drawable(r, size, d) && 1 <= chanceDraw <= 100 && Unit(turnX) && Unit(turnY)
      modifies this`status, this`x, this`y, this`dx, this`dy, this`speed, field
      ensures speed == old(speed)
      ensures old(Waiting(now)) ==> status == Dead && Where() == old(Where())
                                    && field.items == old(field.items)
      ensures !old(Waiting(now)) ==>
                var start := if old(status) == Dead then Placement(r, size, d) else old(Where());
                var f := Flown(start, speed, root, size, d);
                && status == Alive && x == f.x && y == f.y
                && (dx, dy) == (if Chance(TurnChance, chanceDraw) then Redirect(turnX, turnY) else (f.dx, f.dy))
                && field.items == Trampled(old(field.items), Bounds(), d)
    {
      if status == Dead && now - spawnStart > spawnDelay as real {
        Reset(false, r, d);
      } else if status == Dead {
        return;
      }
      ghost var start := Where();
      Fly(root, d);
      ghost var f := Where();
      assert f == Flown(start, speed, root, size, d);
      if Chance(TurnChance, chanceDraw) {
        ChangeDirection(turnX, turnY);
      }
      assert x == f.x && y == f.y;
      CheckMushroomCollision(field, d);
    }
  }
}
