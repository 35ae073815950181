/** Definitions shared by every component of the game: the enumerations,
    the field and sprite dimensions, axis-aligned rectangles, grid cells and
    the process-wide id counter. */
module Globals {

  datatype SegmentType = Head | Body

  datatype CharacterStatus = Alive | Dead

  /** The arrow key held by the player; `Still` is the source's NONE. */
  datatype Direction = Up | Down | Left | Right | Still

  datatype Screen = HomeScreen | GameScreen

  /** Width and height of a sprite, in pixels. */
  datatype Size = Size(width: int, height: int)
  {
    predicate Positive() { width > 0 && height > 0 }
  }

  /** The window and the sprite size of every entity kind. Sprite sizes come
      from texture files, so the model takes them as parameters; the window
      of the shipped game is 1080 x 680. */
  datatype Dims = Dims(windowWidth: int, windowHeight: int,
                       segment: Size, mushroom: Size, blast: Size,
                       player: Size, spider: Size)
  {
    /** Even window sides keep `windowWidth / 2.0` and `0.5 * windowHeight`
        whole numbers, as they are for the shipped 1080 x 680 window. */
    predicate Valid() {
      && windowWidth > 0 && windowHeight > 0
      && windowWidth % 2 == 0 && windowHeight % 2 == 0
      && segment.Positive() && mushroom.Positive() && blast.Positive()
      && player.Positive() && spider.Positive()
    }
  }

  /** An axis-aligned rectangle in window coordinates. */
  datatype Rect = Rect(left: real, top: real, width: real, height: real)

  /** Strict overlap of two rectangles of positive size: they share an area
      greater than zero, touching edges do not count. */
  predicate Intersects(a: Rect, b: Rect) {
    && a.left < b.left + b.width && b.left < a.left + a.width
    && a.top < b.top + b.height && b.top < a.top + a.height
  }

  /** The bounds of a sprite of size `s` placed at the whole-pixel position (x, y). */
  function At(x: int, y: int, s: Size): (r: Rect)
    ensures r.left == x as real && r.top == y as real
    ensures r.width == s.width as real && r.height == s.height as real
  {
    Rect(x as real, y as real, s.width as real, s.height as real)
  }

  /** The bounds of a sprite of size `s` at a float position. */
  function Box(x: real, y: real, s: Size): Rect {
    Rect(x, y, s.width as real, s.height as real)
  }

  /** A whole-pixel position on the field (a grid cell's top-left corner). */
  datatype Spot = Spot(x: int, y: int)

  /** `n` cells of one column: (x, y0), (x, y0 + step), ... in that order. */
  function Column(x: int, y0: int, step: int, n: nat): (c: seq<Spot>)
    ensures |c| == n
    ensures forall k :: 0 <= k < n ==> c[k] == Spot(x, y0 + k * step)
    decreases n
  {
    if n == 0 then [] else Column(x, y0, step, n - 1) + [Spot(x, y0 + (n - 1) * step)]
  }

  /** `nx` columns of `ny` cells each, column by column from the left: the
      order of two nested `for` loops with x outermost. */
  function Grid(x0: int, xStep: int, nx: nat, y0: int, yStep: int, ny: nat): (g: seq<Spot>)
    decreases nx
  {
    if nx == 0 then []
    else Grid(x0, xStep, nx - 1, y0, yStep, ny) + Column(x0 + (nx - 1) * xStep, y0, yStep, ny)
  }

  /** Multiplying by a positive number keeps a whole number away from zero. */
  lemma MulSign(m: int, b: int)
    requires b > 0
    ensures m >= 1 ==> m * b >= b
    ensures m <= -1 ==> m * b <= -b
  {
  }

  /** Euclidean division undoes a multiplication. */
  lemma MulDivMod(a: int, b: int)
    requires b > 0
    ensures (a * b) / b == a && (a * b) % b == 0
  {
    var q, r := (a * b) / b, (a * b) % b;
    assert (a - q) * b == r;
    MulSign(a - q, b);
  }

  /** Multiplying by a positive number keeps strict order. */
  lemma MulStrictMono(a: int, c: int, b: int)
    requires b > 0 && a < c
    ensures a * b < c * b
  {
    MulSign(c - a, b);
    assert (c - a) * b == c * b - a * b;
  }

  /** Multiplying by a positive number keeps order. */
  lemma MulMono(a: int, c: int, b: int)
    requires b > 0
    ensures a <= c ==> a * b <= c * b
  {
    if a < c {
      MulStrictMono(a, c, b);
    }
  }

  /** Multiplying by a positive number keeps and reflects strict order. */
  lemma MulLess(a: int, c: int, b: int)
    requires b > 0
    ensures a * b < c * b <==> a < c
  {
    if a < c {
      MulStrictMono(a, c, b);
    } else if c < a {
      MulStrictMono(c, a, b);
    }
  }

  /** Pulling one step out of a count of steps. */
  lemma StepOut(a: int, k: int, b: int)
    ensures b + (a - k) * b == (a - k + 1) * b
    ensures (a - k + 1) * b == a * b - (k - 1) * b
  {
  }

  /** Euclidean quotient and remainder. */
  lemma FloorBounds(a: int, b: int)
    requires b > 0
    ensures a == (a / b) * b + a % b
    ensures (a / b) * b <= a < (a / b) * b + b
    ensures (a / b) * b + b == (a / b + 1) * b
  {
  }

  /** Euclidean division by a positive number is monotonic. */
  lemma FloorMono(a: int, c: int, b: int)
    requires b > 0 && a <= c
    ensures a / b <= c / b
  {
    FloorBounds(a, b);
    FloorBounds(c, b);
    MulMono(c / b + 1, a / b, b);
  }

  /** Every cell of a grid lies on the lattice the grid was laid out on, and
      inside its bounds. */
  lemma {:induction false} GridCells(x0: int, xStep: int, nx: nat, y0: int, yStep: int, ny: nat, p: Spot)
    requires xStep > 0 && yStep > 0
    requires p in Grid(x0, xStep, nx, y0, yStep, ny)
    ensures (p.x - x0) % xStep == 0 && x0 <= p.x < x0 + nx * xStep
    ensures (p.y - y0) % yStep == 0 && y0 <= p.y < y0 + ny * yStep
    decreases nx
  {
    var col := Column(x0 + (nx - 1) * xStep, y0, yStep, ny);
    MulStrictMono(nx - 1, nx, xStep);
    if p in Grid(x0, xStep, nx - 1, y0, yStep, ny) {
      GridCells(x0, xStep, nx - 1, y0, yStep, ny, p);
    } else {
      assert p in col;
      var k :| 0 <= k < ny && col[k] == p;
      assert p.x - x0 == (nx - 1) * xStep && p.y - y0 == k * yStep;
      MulDivMod(nx - 1, xStep);
      MulDivMod(k, yStep);
      MulMono(0, nx - 1, xStep);
      MulMono(0, k, yStep);
      MulStrictMono(k, ny, yStep);
    }
  }

  /** The grid holds exactly `nx * ny` cells. */
  lemma {:induction false} GridSize(x0: int, xStep: int, nx: nat, y0: int, yStep: int, ny: nat)
    ensures |Grid(x0, xStep, nx, y0, yStep, ny)| == nx * ny
    decreases nx
  {
    if nx > 0 {
      GridSize(x0, xStep, nx - 1, y0, yStep, ny);
    }
  }

  /** Position-wise lexicographic order of spots (x first), the order in
      which the nested scans visit cells. */
  predicate Before(p: Spot, q: Spot) {
    p.x < q.x || (p.x == q.x && p.y < q.y)
  }

  /** Strictly increasing in scan order; in particular no spot repeats. */
  predicate Sorted(s: seq<Spot>) {
    forall i, j :: 0 <= i < j < |s| ==> Before(s[i], s[j])
  }

  /** A column with a positive step lists its cells top to bottom. */
  lemma ColumnSorted(x: int, y0: int, step: int, n: nat)
    requires step > 0
    ensures Sorted(Column(x, y0, step, n))
  {
    forall i, j | 0 <= i < j < n ensures i * step < j * step {
      MulStrictMono(i, j, step);
    }
  }

  /** A grid with positive steps lists its cells in strictly increasing
      order, so no cell appears twice. */
  lemma {:induction false} GridSorted(x0: int, xStep: int, nx: nat, y0: int, yStep: int, ny: nat)
    requires xStep > 0 && yStep > 0
    ensures Sorted(Grid(x0, xStep, nx, y0, yStep, ny))
    decreases nx
  {
    if nx > 0 {
      var prev := Grid(x0, xStep, nx - 1, y0, yStep, ny);
      var col := Column(x0 + (nx - 1) * xStep, y0, yStep, ny);
      GridSorted(x0, xStep, nx - 1, y0, yStep, ny);
      ColumnSorted(x0 + (nx - 1) * xStep, y0, yStep, ny);
      var g := prev + col;
      assert g == Grid(x0, xStep, nx, y0, yStep, ny);
      forall i, j | 0 <= i < j < |g| ensures Before(g[i], g[j]) {
        if j < |prev| {
          assert g[i] == prev[i] && g[j] == prev[j];
        } else if i >= |prev| {
          assert g[i] == col[i - |prev|] && g[j] == col[j - |prev|];
        } else {
          assert g[i] == prev[i] && g[j] == col[j - |prev|];
          assert prev[i] in prev;
          GridCells(x0, xStep, nx - 1, y0, yStep, ny, prev[i]);
        }
      }
    }
  }

  /** The process-wide id source (`globalCounter`): segments, mushrooms and
      laser blasts all draw their ids from it, so ids never collide. */
  class Counter {
    var next: int

    constructor (start: int)
      ensures next == start
    {
      next := start;
    }

    /** `globalCounter++`: hands out the current value and advances. */
    method Take() returns (id: int)
      modifies this
      ensures id == old(next) && next == old(next) + 1
    {
      id := next;
      next := next + 1;
    }
  }
}
