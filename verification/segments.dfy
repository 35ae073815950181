/** One centipede segment and everything a segment computes about itself:
    its next bounds, the trailing bodies it may overlap, whether it can move,
    the open-cell rescue search, the head's steering and grid-snapping move,
    and the fixed-lag follow of a body. */
module Segments {
  import opened Globals
  import opened Mushrooms

  /** The default argument of `getNextSegmentBounds`: "use my own direction". */
  const OwnDirection := 999

  /** One entry of a segment's moves queue: a position and the direction
      that was taken there. */
  datatype Step = Step(x: int, y: int, dx: int, dy: int)

  /** The entry handed to the first body when no live segment precedes it. */
  const NoStep := Step(0, 0, 0, 0)

  /** A centipede segment (`ECE_CentipedeSegment`). Two segments are the same
      segment exactly when their ids agree. */
  datatype Segment = Segment(id: int, kind: SegmentType, status: CharacterStatus,
                             x: int, y: int, dx: int, dy: int,
                             savedDy: int, randomWalkDy: int,
                             speed: int, maxDelayTicks: int, moves: seq<Step>)
  {
    function Bounds(d: Dims): Rect {
      At(x, y, d.segment)
    }
  }

  /** What a segment reads besides itself: the chain's segment list, the
      mushroom list, the player's height on screen, the chain's random-walk
      flag and the dimensions. */
  datatype Scene = Scene(segments: seq<Segment>, mushrooms: seq<Mushroom>,
                         playerY: real, randomWalk: bool, d: Dims)

  /** `getSign`. */
  function Sign(v: real): (s: int)
    ensures s == 1 <==> v > 0.0
    ensures s == -1 <==> v < 0.0
    ensures s == 0 <==> v == 0.0
  {
    if v > 0.0 then 1 else if v < 0.0 then -1 else 0
  }

  predicate Unit(v: int) {
    -1 <= v <= 1
  }

  /** Every direction a segment holds or has queued is -1, 0 or 1. */
  predicate UnitDirections(s: Segment) {
    && Unit(s.dx) && Unit(s.dy) && Unit(s.savedDy) && Unit(s.randomWalkDy)
    && forall m :: m in s.moves ==> Unit(m.dx) && Unit(m.dy)
  }

  /** `getNextSegmentBounds(useDx, useDy)`: the current bounds shifted by one
      move in the given direction, 999 standing for the segment's own. */
  function NextBounds(s: Segment, useDx: int, useDy: int, d: Dims): (r: Rect)
    ensures useDx == OwnDirection && useDy == OwnDirection ==>
              r == s.(x := s.x + s.dx * s.speed, y := s.y + s.dy * s.speed).Bounds(d)
    ensures useDx != OwnDirection && useDy != OwnDirection ==>
              r == s.(x := s.x + useDx * s.speed, y := s.y + useDy * s.speed).Bounds(d)
  {
    var dx := if useDx == OwnDirection then s.dx else useDx;
    var dy := if useDy == OwnDirection then s.dy else useDy;
    At(s.x + dx * s.speed, s.y + dy * s.speed, d.segment)
  }

  // ---------------------------------------------------------------------
  // Trailing bodies
  // ---------------------------------------------------------------------

  predicate LiveBody(s: Segment) {
    s.kind == Body && s.status == Alive
  }

  /** First index at `from` or later holding the segment with this id
      (`std::find`); `|segs|` when there is none. */
  function IndexOf(segs: seq<Segment>, id: int, from: nat): (k: nat)
    requires from <= |segs|
    ensures from <= k <= |segs|
    ensures k < |segs| ==> segs[k].id == id
    ensures forall j :: from <= j < k ==> segs[j].id != id
    decreases |segs| - from
  {
    if from == |segs| || segs[from].id == id then from else IndexOf(segs, id, from + 1)
  }

  /** End of the run of live bodies starting at `from`. */
  function RunEnd(segs: seq<Segment>, from: nat): (e: nat)
    requires from <= |segs|
    ensures from <= e <= |segs|
    ensures forall j :: from <= j < e ==> LiveBody(segs[j])
    ensures e < |segs| ==> !LiveBody(segs[e])
    decreases |segs| - from
  {
    if from == |segs| || !LiveBody(segs[from]) then from else RunEnd(segs, from + 1)
  }

  /** `getTrailingBodies`: the live bodies that directly follow the segment
      with this id, up to the first head or dead segment. */
  function TrailingBodies(segs: seq<Segment>, id: int): (r: seq<Segment>)
    ensures var k := IndexOf(segs, id, 0);
            && (k == |segs| ==> r == [])
            && (k < |segs| ==> k + 1 + |r| <= |segs| && r == segs[k + 1..k + 1 + |r|]
                               && (k + 1 + |r| < |segs| ==> !LiveBody(segs[k + 1 + |r|])))
    ensures forall t :: t in r ==> LiveBody(t)
  {
    var k := IndexOf(segs, id, 0);
    if k == |segs| then [] else segs[k + 1..RunEnd(segs, k + 1)]
  }

  /** A run of live bodies ends at the first index that is not one. */
  lemma RunEndAt(segs: seq<Segment>, from: nat, j: nat)
    requires from <= j <= |segs|
    requires forall i :: from <= i < j ==> LiveBody(segs[i])
    requires j == |segs| || !LiveBody(segs[j])
    ensures RunEnd(segs, from) == j
  {
  }

  /** The loops of `getTrailingBodies`. */
  method GetTrailingBodies(segs: seq<Segment>, id: int) returns (r: seq<Segment>)
    ensures r == TrailingBodies(segs, id)
  {
    var k := 0;
    while k < |segs| && segs[k].id != id
      invariant k <= |segs| && IndexOf(segs, id, k) == IndexOf(segs, id, 0)
      decreases |segs| - k
    {
      k := k + 1;
    }
    r := [];
    if k < |segs| {
      var j := k + 1;
      while j < |segs|
        invariant k + 1 <= j <= |segs| && r == segs[k + 1..j]
        invariant forall i :: k + 1 <= i < j ==> LiveBody(segs[i])
        decreases |segs| - j
      {
        if LiveBody(segs[j]) {
          r := r + [segs[j]];
        } else {
          break;
        }
        j := j + 1;
      }
      RunEndAt(segs, k + 1, j);
    }
  }

  /** `inSegmentList`: list membership by id. */
  predicate Listed(ts: seq<Segment>, t: Segment) {
    exists u :: u in ts && u.id == t.id
  }

  /** Segment `t` stands in the way of the segment with this id when it is
      another live segment, not one of its trailing bodies, overlapping `b`. */
  predicate Obstructs(id: int, trailing: seq<Segment>, t: Segment, b: Rect, d: Dims) {
    t.id != id && t.status == Alive && Intersects(b, t.Bounds(d)) && !Listed(trailing, t)
  }

  /** `segmentCanMove(b)`: nothing is in the way of the segment with this id
      at `b`, neither a live segment outside its trailing run nor a mushroom
      with health left. */
  predicate CanMoveTo(id: int, b: Rect, sc: Scene) {
    var trailing := TrailingBodies(sc.segments, id);
    && (forall t :: t in sc.segments ==> !Obstructs(id, trailing, t, b, sc.d))
    && (forall m :: m in sc.mushrooms ==> !Blocks(m, b, sc.d))
  }

  /** The loops of `segmentCanMove`: segments first, then mushrooms. */
  method SegmentCanMove(id: int, b: Rect, sc: Scene) returns (ok: bool)
    ensures ok <==> CanMoveTo(id, b, sc)
  {
    var trailing := GetTrailingBodies(sc.segments, id);
    var i := 0;
    while i < |sc.segments|
      invariant i <= |sc.segments|
      invariant forall j :: 0 <= j < i ==> !Obstructs(id, trailing, sc.segments[j], b, sc.d)
      decreases |sc.segments| - i
    {
      if Obstructs(id, trailing, sc.segments[i], b, sc.d) {
        return false;
      }
      i := i + 1;
    }
    var k := FindBlocking(sc.mushrooms, b, sc.d);
    ok := k == |sc.mushrooms|;
  }

  // ---------------------------------------------------------------------
  // Open-cell rescue
  // ---------------------------------------------------------------------

  /** The cells `findOpenSpots` scans: columns of segment width across the
      window and, as the source writes the row bound, `windowHeight / width`
      rows of segment height. */
  function Scanned(d: Dims): seq<Spot>
    requires d.Valid()
  {
    var w, h := d.segment.width, d.segment.height;
    Grid(0, w, d.windowWidth / w, 0, h, d.windowHeight / w)
  }

  /** The cells of `cells` where the segment with this id can stand. */
  function OpenAmong(id: int, cells: seq<Spot>, sc: Scene): (r: seq<Spot>)
    ensures |r| <= |cells|
  {
    if cells == [] then []
    else
      var last := cells[|cells| - 1];
      OpenAmong(id, cells[..|cells| - 1], sc)
        + (if CanMoveTo(id, At(last.x, last.y, sc.d.segment), sc) then [last] else [])
  }

  /** A cell is kept exactly when the segment can stand there. */
  lemma {:induction false} OpenAmongMembers(id: int, cells: seq<Spot>, sc: Scene, p: Spot)
    ensures p in OpenAmong(id, cells, sc) <==> p in cells && CanMoveTo(id, At(p.x, p.y, sc.d.segment), sc)
    decreases |cells|
  {
    if cells != [] {
      var init := cells[..|cells| - 1];
      assert cells == init + [cells[|cells| - 1]];
      OpenAmongMembers(id, init, sc, p);
    }
  }

  /** Scanning one more cell keeps it exactly when the segment can stand there. */
  lemma OpenAmongStep(id: int, cells: seq<Spot>, p: Spot, sc: Scene)
    ensures OpenAmong(id, cells + [p], sc)
            == OpenAmong(id, cells, sc) + (if CanMoveTo(id, At(p.x, p.y, sc.d.segment), sc) then [p] else [])
  {
    assert (cells + [p])[..|cells|] == cells;
  }

  /** A column grows by its next cell down. */
  lemma ColumnStep(x: int, h: int, j: nat)
    ensures Column(x, 0, h, j + 1) == Column(x, 0, h, j) + [Spot(x, j * h)]
  {
  }

  /** `findOpenSpots`. */
  function OpenSpots(id: int, sc: Scene): seq<Spot>
    requires sc.d.Valid()
  {
    OpenAmong(id, Scanned(sc.d), sc)
  }

  /** Every open spot is a grid cell of the scanned area, free of live
      mushrooms and of live segments other than the segment and its trailing
      bodies. */
  lemma OpenSpotIsFree(id: int, sc: Scene, p: Spot)
    requires sc.d.Valid() && p in OpenSpots(id, sc)
    ensures p.x % sc.d.segment.width == 0 && p.y % sc.d.segment.height == 0
    ensures 0 <= p.x < (sc.d.windowWidth / sc.d.segment.width) * sc.d.segment.width
    ensures 0 <= p.y < (sc.d.windowHeight / sc.d.segment.width) * sc.d.segment.height
    ensures forall m :: m in sc.mushrooms ==> !Blocks(m, At(p.x, p.y, sc.d.segment), sc.d)
    ensures forall t :: t in sc.segments && t.id != id && t.status == Alive
                        && Intersects(At(p.x, p.y, sc.d.segment), t.Bounds(sc.d))
                        ==> Listed(TrailingBodies(sc.segments, id), t)
  {
    var w, h := sc.d.segment.width, sc.d.segment.height;
    var nx, ny := sc.d.windowWidth / w, sc.d.windowHeight / w;
    assert Scanned(sc.d) == Grid(0, w, nx, 0, h, ny);
    OpenAmongMembers(id, Scanned(sc.d), sc, p);
    GridCells(0, w, nx, 0, h, ny, p);
    assert p.x - 0 == p.x && p.y - 0 == p.y;
    assert CanMoveTo(id, At(p.x, p.y, sc.d.segment), sc);
  }

  /** The body of the inner loop of `findOpenSpots`: the cell at (x, y) is
      added to the open spots found so far when the segment can stand there. */
  method ScanCell(id: int, x: int, y: int, sc: Scene, ghost before: seq<Spot>, acc: seq<Spot>)
    returns (spots: seq<Spot>)
    requires acc == OpenAmong(id, before, sc)
    ensures spots == OpenAmong(id, before + [Spot(x, y)], sc)
  {
    var open := SegmentCanMove(id, At(x, y, sc.d.segment), sc);
    OpenAmongStep(id, before, Spot(x, y), sc);
    spots := acc;
    if open {
      spots := spots + [Spot(x, y)];
    }
  }

  /** The inner loop of `findOpenSpots`: one column of `ny` cells at `x`,
      added to the open spots found so far. */
  method ScanColumn(id: int, x: int, ny: nat, sc: Scene, ghost before: seq<Spot>, acc: seq<Spot>)
    returns (spots: seq<Spot>)
    requires sc.d.Valid() && acc == OpenAmong(id, before, sc)
    ensures spots == OpenAmong(id, before + Column(x, 0, sc.d.segment.height, ny), sc)
  {
    var h := sc.d.segment.height;
    spots := acc;
    ghost var scanned := before;
    var y, j := 0, 0;
    while y < ny * h
      invariant 0 <= j <= ny && y == j * h
      invariant scanned == before + Column(x, 0, h, j)
      invariant spots == OpenAmong(id, scanned, sc)
      decreases ny * h - y
    {
      MulLess(j, ny, h);
      StepOut(j, 0, h);
      spots := ScanCell(id, x, y, sc, scanned, spots);
      ColumnStep(x, h, j);
      assert scanned + [Spot(x, y)] == before + Column(x, 0, h, j + 1);
      scanned := scanned + [Spot(x, y)];
      y, j := y + h, j + 1;
    }
    MulLess(j, ny, h);
  }

  /** The nested scan of `findOpenSpots`. */
  method FindOpenSpots(id: int, sc: Scene) returns (spots: seq<Spot>)
    requires sc.d.Valid()
    ensures spots == OpenSpots(id, sc)
  {
    var w, h := sc.d.segment.width, sc.d.segment.height;
    var nx, ny := sc.d.windowWidth / w, sc.d.windowHeight / w;
    spots := [];
    var x, i := 0, 0;
    while x < nx * w
      invariant 0 <= i <= nx && x == i * w
      invariant spots == OpenAmong(id, Grid(0, w, i, 0, h, ny), sc)
      decreases nx * w - x
    {
      MulLess(i, nx, w);
      StepOut(i, 0, w);
      spots := ScanColumn(id, x, ny, sc, Grid(0, w, i, 0, h, ny), spots);
      assert 0 + ((i + 1) - 1) * w == x;
      assert Grid(0, w, i + 1, 0, h, ny) == Grid(0, w, i, 0, h, ny) + Column(x, 0, h, ny);
      x, i := x + w, i + 1;
    }
    MulLess(i, nx, w);
  }

  /** Squared distance between a spot and a position; it orders spots the
      way the Euclidean distance does. */
  function Distance2(p: Spot, x: int, y: int): (r: int)
    ensures r >= 0
  {
    SquareNonNegative(p.x - x);
    SquareNonNegative(p.y - y);
    (p.x - x) * (p.x - x) + (p.y - y) * (p.y - y)
  }

  lemma SquareNonNegative(v: int)
    ensures v * v >= 0
  {
    if v < 0 {
      MulSign(-v, -v);
    } else if v > 0 {
      MulSign(v, v);
    }
  }

  /** Index of the first spot among the first `n` at minimal distance from
      (x, y): a later spot replaces the best so far only when strictly
      closer. */
  function Closest(spots: seq<Spot>, n: nat, x: int, y: int): (k: nat)
    requires 0 < n <= |spots|
    ensures k < n
    ensures forall j :: 0 <= j < n ==> Distance2(spots[k], x, y) <= Distance2(spots[j], x, y)
    ensures forall j :: 0 <= j < k ==> Distance2(spots[j], x, y) > Distance2(spots[k], x, y)
  {
    if n == 1 then 0
    else
      var k := Closest(spots, n - 1, x, y);
      if Distance2(spots[n - 1], x, y) < Distance2(spots[k], x, y) then n - 1 else k
  }

  /** One more spot: it replaces the best so far only when strictly closer. */
  lemma ClosestStep(spots: seq<Spot>, i: nat, x: int, y: int)
    requires i < |spots|
    ensures i == 0 ==> Closest(spots, 1, x, y) == 0
    ensures i > 0 ==>
              var k := Closest(spots, i, x, y);
              Closest(spots, i + 1, x, y)
                == if Distance2(spots[i], x, y) < Distance2(spots[k], x, y) then i else k
  {
  }

  /** `findClosestOpenSpot`: the current position when no spot is open,
      otherwise the first open spot of minimal distance. */
  function ClosestOpenSpot(s: Segment, sc: Scene): (p: Spot)
    requires sc.d.Valid()
  {
    var open := OpenSpots(s.id, sc);
    if open == [] then Spot(s.x, s.y) else open[Closest(open, |open|, s.x, s.y)]
  }

  /** The rescue spot is the current position when nothing is open, and
      otherwise an open spot no farther than any other, listed before every
      other spot at the same distance. */
  lemma ClosestOpenSpotIsClosest(s: Segment, sc: Scene)
    requires sc.d.Valid()
    ensures OpenSpots(s.id, sc) == [] ==> ClosestOpenSpot(s, sc) == Spot(s.x, s.y)
    ensures var open, p := OpenSpots(s.id, sc), ClosestOpenSpot(s, sc);
            open != [] ==> p in open
                           && (forall q :: q in open ==> Distance2(p, s.x, s.y) <= Distance2(q, s.x, s.y))
                           && (forall j :: 0 <= j < |open| && open[j] != p ==>
                                 Distance2(open[j], s.x, s.y) > Distance2(p, s.x, s.y) || p in open[..j])
  {
    var open := OpenSpots(s.id, sc);
    if open != [] {
      var k := Closest(open, |open|, s.x, s.y);
      forall j | 0 <= j < |open| && open[j] != open[k]
        ensures Distance2(open[j], s.x, s.y) > Distance2(open[k], s.x, s.y) || open[k] in open[..j]
      {
        if k < j {
          assert open[..j][k] == open[k];
        }
      }
    }
  }

  /** The minimum search of `findClosestOpenSpot`; `best < 0` plays the
      part of the initial `numeric_limits<float>::max()`. */
  method ClosestIndex(spots: seq<Spot>, x: int, y: int) returns (k: nat)
    requires spots != []
    ensures k == Closest(spots, |spots|, x, y)
  {
    k := 0;
    var best := -1;
    var i := 0;
    while i < |spots|
      invariant 0 <= i <= |spots| && k < |spots|
      invariant i == 0 ==> best == -1 && k == 0
      invariant i > 0 ==> k == Closest(spots, i, x, y) && best == Distance2(spots[k], x, y)
      decreases |spots| - i
    {
      var dist := Distance2(spots[i], x, y);
      ClosestStep(spots, i, x, y);
      if best < 0 || dist < best {
        best := dist;
        k := i;
      }
      i := i + 1;
    }
  }

  /** `findClosestOpenSpot`. */
  method FindClosestOpenSpot(s: Segment, sc: Scene) returns (p: Spot)
    requires sc.d.Valid()
    ensures p == ClosestOpenSpot(s, sc)
  {
    var open := FindOpenSpots(s.id, sc);
    if open == [] {
      return Spot(s.x, s.y);
    }
    var k := ClosestIndex(open, s.x, s.y);
    p := open[k];
  }

  // ---------------------------------------------------------------------
  // Head steering (`checkCollisions`)
  // ---------------------------------------------------------------------

  /** The vertical direction a head takes after turning: its own random-walk
      direction in the attract screen, otherwise towards the player. */
  function Turn(s: Segment, sc: Scene): int {
    if sc.randomWalk then s.randomWalkDy else Sign(sc.playerY - s.y as real)
  }

  /** A live mushroom either under the head or in its way. */
  predicate Snags(m: Mushroom, s: Segment, d: Dims) {
    Blocks(m, s.Bounds(d), d) || Blocks(m, NextBounds(s, OwnDirection, OwnDirection, d), d)
  }

  /** First mushroom at `from` or later that snags the head. */
  function FirstSnag(ms: seq<Mushroom>, s: Segment, d: Dims, from: nat): (k: nat)
    requires from <= |ms|
    ensures from <= k <= |ms|
    ensures k < |ms| ==> Snags(ms[k], s, d)
    ensures forall j :: from <= j < k ==> !Snags(ms[j], s, d)
    decreases |ms| - from
  {
    if from == |ms| || Snags(ms[from], s, d) then from else FirstSnag(ms, s, d, from + 1)
  }

  /** The mushroom pass: the first snagging mushroom decides; a head already
      inside it is moved to the closest open spot, a head about to enter it
      reverses and turns. Only the position or the direction changes, and dx
      is reversed at most once. */
  function MushroomPass(s: Segment, sc: Scene): (r: Segment)
    requires sc.d.Valid()
    ensures r.dx == s.dx || r.dx == -s.dx
    ensures r == s.(x := r.x, y := r.y, dx := r.dx, dy := r.dy)
    ensures (r.x, r.y) != (s.x, s.y) ==> r.dx == s.dx && r.dy == s.dy
  {
    var k := FirstSnag(sc.mushrooms, s, sc.d, 0);
    if k == |sc.mushrooms| then s
    else if Blocks(sc.mushrooms[k], s.Bounds(sc.d), sc.d) then
      var p := ClosestOpenSpot(s, sc);
      s.(x := p.x, y := p.y)
    else s.(dx := -s.dx, dy := Turn(s, sc))
  }

  /** First segment at `from` or later in the way of the head's next move. */
  function FirstObstruction(s: Segment, trailing: seq<Segment>, sc: Scene, from: nat): (k: nat)
    requires from <= |sc.segments|
    ensures from <= k <= |sc.segments|
    ensures k < |sc.segments| ==>
              Obstructs(s.id, trailing, sc.segments[k], NextBounds(s, OwnDirection, OwnDirection, sc.d), sc.d)
    ensures forall j :: from <= j < k ==>
              !Obstructs(s.id, trailing, sc.segments[j], NextBounds(s, OwnDirection, OwnDirection, sc.d), sc.d)
    decreases |sc.segments| - from
  {
    if from == |sc.segments|
       || Obstructs(s.id, trailing, sc.segments[from], NextBounds(s, OwnDirection, OwnDirection, sc.d), sc.d)
    then from
    else FirstObstruction(s, trailing, sc, from + 1)
  }

  /** Some segment stands in the way of the head's next move. */
  predicate SegmentAhead(s: Segment, sc: Scene) {
    exists t :: t in sc.segments
      && Obstructs(s.id, TrailingBodies(sc.segments, s.id), t,
                   NextBounds(s, OwnDirection, OwnDirection, sc.d), sc.d)
  }

  /** The segment pass: a head about to run into another live segment
      outside its trailing run reverses once and turns. */
  function SegmentPass(s: Segment, sc: Scene): (r: Segment)
    ensures r.dx == s.dx || r.dx == -s.dx
    ensures r == s.(dx := r.dx, dy := r.dy)
    ensures SegmentAhead(s, sc) ==> r == s.(dx := -s.dx, dy := Turn(s, sc))
    ensures !SegmentAhead(s, sc) ==> r == s
  {
    var k := FirstObstruction(s, TrailingBodies(sc.segments, s.id), sc, 0);
    if k == |sc.segments| then s else s.(dx := -s.dx, dy := Turn(s, sc))
  }

  /** The window pass: a head whose next move leaves the window sideways
      heads back towards the middle column and turns; one whose next move
      leaves the whole rows of the window vertically turns (in random-walk
      mode towards the middle row, which it also remembers). */
  function EdgePass(s: Segment, sc: Scene): (r: Segment)
    requires sc.d.Valid()
    ensures r == s.(dx := r.dx, dy := r.dy, randomWalkDy := r.randomWalkDy)
    ensures !sc.randomWalk ==> r.randomWalkDy == s.randomWalkDy
  {
    var w, h := sc.d.segment.width, sc.d.segment.height;
    var nx := s.x + s.dx * s.speed;
    var s1 := if nx < 0 || nx + w > sc.d.windowWidth
              then s.(dx := Sign((sc.d.windowWidth / 2 - s.x) as real), dy := Turn(s, sc))
              else s;
    var ny := s1.y + s1.dy * s1.speed;
    if ny < 0 || ny + h > (sc.d.windowHeight / h) * h then
      var dy := if sc.randomWalk then Sign((sc.d.windowHeight / 2 - s1.y) as real)
                else Sign(sc.playerY - s1.y as real);
      s1.(dy := dy, randomWalkDy := if sc.randomWalk then dy else s1.randomWalkDy)
    else s1
  }

  /** The blocked pass: when the intended move (straight down or up if dy is
      set, sideways otherwise) cannot be made, a vertical intent is saved and
      dropped, and a blocked sideways move reverses. */
  function Sidestep(s: Segment, sc: Scene): (r: Segment)
    ensures r == s.(dx := r.dx, dy := r.dy, savedDy := r.savedDy)
    ensures r.dx == s.dx || r.dx == -s.dx
    ensures r.dy == s.dy || r.dy == 0
    ensures r.dy != s.dy ==> r.savedDy == s.dy
    ensures CanMoveTo(s.id, NextBounds(s, if s.dy != 0 then 0 else s.dx, s.dy, sc.d), sc) ==> r == s
  {
    if CanMoveTo(s.id, NextBounds(s, if s.dy != 0 then 0 else s.dx, s.dy, sc.d), sc) then s
    else
      var s1 := if s.dy != 0 then s.(savedDy := s.dy, dy := 0) else s;
      if CanMoveTo(s1.id, NextBounds(s1, s1.dx, 0, sc.d), sc) then s1 else s1.(dx := -s1.dx)
  }

  /** The restore pass: a saved vertical intent comes back, and is
      forgotten, exactly when the vertical move is possible. */
  function Restore(s: Segment, sc: Scene): (r: Segment)
    ensures s.savedDy == 0 ==> r == s
    ensures s.savedDy != 0 ==>
              (r.savedDy == 0 <==> CanMoveTo(s.id, NextBounds(s, 0, s.savedDy, sc.d), sc))
    ensures r.savedDy == 0 && s.savedDy != 0 ==> r == s.(dy := s.savedDy, savedDy := 0)
    ensures r.savedDy != 0 ==> r == s
  {
    if s.savedDy != 0 && CanMoveTo(s.id, NextBounds(s, 0, s.savedDy, sc.d), sc)
    then s.(dy := s.savedDy, savedDy := 0)
    else s
  }

  /** `checkCollisions`: the four passes in source order. */
  function Steer(s: Segment, sc: Scene): (r: Segment)
    requires sc.d.Valid()
    ensures r.id == s.id && r.kind == s.kind && r.status == s.status
    ensures r.speed == s.speed && r.maxDelayTicks == s.maxDelayTicks && r.moves == s.moves
  {
    Restore(Sidestep(EdgePass(SegmentPass(MushroomPass(s, sc), sc), sc), sc), sc)
  }

  /** Steering keeps every direction in {-1, 0, 1}. */
  lemma SteerUnit(s: Segment, sc: Scene)
    requires sc.d.Valid() && UnitDirections(s)
    ensures UnitDirections(Steer(s, sc))
  {
    var s1 := MushroomPass(s, sc);
    MushroomPassUnit(s, sc);
    var s2 := SegmentPass(s1, sc);
    SegmentPassUnit(s1, sc);
    var s3 := EdgePass(s2, sc);
    EdgePassUnit(s2, sc);
    var s4 := Sidestep(s3, sc);
    SidestepUnit(s3, sc);
    RestoreUnit(s4, sc);
  }

  /** The mushroom pass keeps every direction in {-1, 0, 1}. */
  lemma MushroomPassUnit(s: Segment, sc: Scene)
    requires sc.d.Valid() && UnitDirections(s)
    ensures UnitDirections(MushroomPass(s, sc))
  {
    TurnUnit(s, sc);
    KeptUnit(s, MushroomPass(s, sc));
  }

  /** The segment pass keeps every direction in {-1, 0, 1}. */
  lemma SegmentPassUnit(s: Segment, sc: Scene)
    requires UnitDirections(s)
    ensures UnitDirections(SegmentPass(s, sc))
  {
    TurnUnit(s, sc);
    KeptUnit(s, SegmentPass(s, sc));
  }

  /** The window pass keeps every direction in {-1, 0, 1}. */
  lemma EdgePassUnit(s: Segment, sc: Scene)
    requires sc.d.Valid() && UnitDirections(s)
    ensures UnitDirections(EdgePass(s, sc))
  {
    TurnUnit(s, sc);
    KeptUnit(s, EdgePass(s, sc));
  }

  /** The blocked pass keeps every direction in {-1, 0, 1}. */
  lemma SidestepUnit(s: Segment, sc: Scene)
    requires UnitDirections(s)
    ensures UnitDirections(Sidestep(s, sc))
  {
    KeptUnit(s, Sidestep(s, sc));
  }

  /** The restore pass keeps every direction in {-1, 0, 1}. */
  lemma RestoreUnit(s: Segment, sc: Scene)
    requires UnitDirections(s)
    ensures UnitDirections(Restore(s, sc))
  {
    KeptUnit(s, Restore(s, sc));
  }

  /** The turn direction is -1, 0 or 1 when the random-walk direction is. */
  lemma TurnUnit(s: Segment, sc: Scene)
    requires Unit(s.randomWalkDy)
    ensures Unit(Turn(s, sc))
  {
  }

  /** A pass that keeps the queue and leaves every direction in {-1, 0, 1}
      keeps a segment's directions unit. */
  lemma KeptUnit(s: Segment, r: Segment)
    requires UnitDirections(s) && r.moves == s.moves
    requires Unit(r.dx) && Unit(r.dy) && Unit(r.savedDy) && Unit(r.randomWalkDy)
    ensures UnitDirections(r)
  {
  }

  /** The mushroom scan of `checkCollisions`. */
  method MushroomScan(s: Segment, sc: Scene) returns (r: Segment)
    requires sc.d.Valid()
    ensures r == MushroomPass(s, sc)
  {
    r := s;
    var i := 0;
    while i < |sc.mushrooms|
      invariant i <= |sc.mushrooms|
      invariant FirstSnag(sc.mushrooms, s, sc.d, i) == FirstSnag(sc.mushrooms, s, sc.d, 0)
      invariant r == s
      decreases |sc.mushrooms| - i
    {
      var m := sc.mushrooms[i];
      if m.health > 0 && Intersects(r.Bounds(sc.d), m.Bounds(sc.d)) {
        var p := FindClosestOpenSpot(r, sc);
        r := r.(x := p.x, y := p.y);
        return;
      }
      if m.health > 0 && Intersects(NextBounds(r, OwnDirection, OwnDirection, sc.d), m.Bounds(sc.d)) {
        r := r.(dx := -r.dx, dy := Turn(r, sc));
        return;
      }
      i := i + 1;
    }
  }

  /** The segment scan of `checkCollisions`. */
  method SegmentScan(s: Segment, sc: Scene) returns (r: Segment)
    ensures r == SegmentPass(s, sc)
  {
    r := s;
    var trailing := GetTrailingBodies(sc.segments, s.id);
    var i := 0;
    while i < |sc.segments|
      invariant i <= |sc.segments|
      invariant FirstObstruction(s, trailing, sc, i) == FirstObstruction(s, trailing, sc, 0)
      invariant r == s
      decreases |sc.segments| - i
    {
      var t := sc.segments[i];
      if s.id == t.id || t.status == Dead || Listed(trailing, t) {
        i := i + 1;
        continue;
      }
      if Intersects(NextBounds(r, OwnDirection, OwnDirection, sc.d), t.Bounds(sc.d)) {
        r := r.(dx := -r.dx, dy := Turn(r, sc));
        return;
      }
      i := i + 1;
    }
  }

  /** The window checks of `checkCollisions`. */
  method EdgeChecks(s: Segment, sc: Scene) returns (r: Segment)
    requires sc.d.Valid()
    ensures r == EdgePass(s, sc)
  {
    r := s;
    var w, h := sc.d.segment.width, sc.d.segment.height;
    if r.x + r.dx * r.speed < 0 || r.x + r.dx * r.speed + w > sc.d.windowWidth {
      r := r.(dx := Sign((sc.d.windowWidth / 2 - r.x) as real), dy := Turn(r, sc));
    }
    if r.y + r.dy * r.speed < 0 || r.y + r.dy * r.speed + h > (sc.d.windowHeight / h) * h {
      var dy := if sc.randomWalk then Sign((sc.d.windowHeight / 2 - r.y) as real)
                else Sign(sc.playerY - r.y as real);
      r := r.(dy := dy);
      if sc.randomWalk {
        r := r.(randomWalkDy := dy);
      }
    }
  }

  /** The blocked-move handling of `checkCollisions`. */
  method BlockedChecks(s: Segment, sc: Scene) returns (r: Segment)
    ensures r == Restore(Sidestep(s, sc), sc)
  {
    r := s;
    var free := SegmentCanMove(r.id, NextBounds(r, if r.dy != 0 then 0 else r.dx, r.dy, sc.d), sc);
    if !free {
      if r.dy != 0 {
        r := r.(savedDy := r.dy, dy := 0);
      }
      var sideways := SegmentCanMove(r.id, NextBounds(r, r.dx, 0, sc.d), sc);
      if !sideways {
        r := r.(dx := -r.dx);
      }
    }
    assert r == Sidestep(s, sc);
    if r.savedDy != 0 {
      var vertical := SegmentCanMove(r.id, NextBounds(r, 0, r.savedDy, sc.d), sc);
      if vertical {
        r := r.(dy := r.savedDy, savedDy := 0);
      }
    }
  }

  /** `checkCollisions` as written: the two scans, the window checks and the
      blocked-move handling, on a copy of the head. */
  method CheckCollisions(s: Segment, sc: Scene) returns (r: Segment)
    requires sc.d.Valid()
    ensures r == Steer(s, sc)
  {
    r := MushroomScan(s, sc);
    r := SegmentScan(r, sc);
    r := EdgeChecks(r, sc);
    r := BlockedChecks(r, sc);
  }

  // ---------------------------------------------------------------------
  // Head move (`headMove`)
  // ---------------------------------------------------------------------

  /** C++ integer division, truncating towards zero. */
  function CDiv(a: int, b: int): int
    requires b > 0
  {
    if a >= 0 then a / b else -((-a) / b)
  }

  /** C++ integer remainder, with the sign of the dividend. */
  function CMod(a: int, b: int): int
    requires b > 0
  {
    a - CDiv(a, b) * b
  }

  /** `headMove`: a horizontal head moves one step of `speed`; a vertical
      head moves one step and stops on the row it reaches or crosses,
      dropping its vertical direction there. */
  function HeadMoved(s: Segment, d: Dims): (r: Segment)
    requires d.Valid()
    ensures r == s.(x := r.x, y := r.y, dy := r.dy)
    ensures s.dy == 0 ==> r.x == s.x + s.dx * s.speed && r.y == s.y && r.dy == 0
    ensures s.dy != 0 ==> r.x == s.x && (r.dy == s.dy || r.dy == 0)
    ensures s.dy != 0 && r.dy == s.dy ==> r.y == s.y + s.dy * s.speed
  {
    var size := d.segment.height;
    var cur := s.y;
    var next := cur + s.dy * s.speed;
    if s.dy != 0 then
      if s.dy > 0 then
        if CMod(next, size) == 0 || (CDiv(cur, size) < CDiv(next, size) && CMod(cur, size) != 0)
        then s.(y := CDiv(next, size) * size, dy := 0)
        else s.(y := next)
      else
        if CMod(next, size) == 0 || (CDiv(cur, size) > CDiv(next, size) && CMod(cur, size) != 0)
        then s.(y := CDiv(cur, size) * size, dy := 0)
        else s.(y := next)
    else s.(x := s.x + s.dx * s.speed)
  }

  /** A whole number of rows truncated from either side is a whole number
      of rows. */
  lemma CDivMultiple(a: int, b: int)
    requires b > 0
    ensures (CDiv(a, b) * b) % b == 0
  {
    MulDivMod(CDiv(a, b), b);
  }

  /** When a vertical head snaps, it lands on a row boundary (a multiple of
      the cell height) between where it was and where the full step would
      have taken it: past its old row when moving down, at most back to the
      top of its row when moving up. */
  lemma HeadMoveSnaps(s: Segment, d: Dims)
    requires d.Valid() && s.y >= 0 && s.speed > 0 && s.dy != 0
    requires HeadMoved(s, d).dy == 0
    ensures HeadMoved(s, d).y % d.segment.height == 0
    ensures s.dy > 0 ==> s.y < HeadMoved(s, d).y <= s.y + s.dy * s.speed
    ensures s.dy < 0 ==> s.y + s.dy * s.speed <= HeadMoved(s, d).y <= s.y
  {
    MulSign(s.dy, s.speed);
    if s.dy > 0 {
      SnapDown(s.y, s.y + s.dy * s.speed, d.segment.height);
    } else {
      SnapUp(s.y, s.y + s.dy * s.speed, d.segment.height);
    }
  }

  /** The downward snap lands on a multiple of `size` in (cur, next]. */
  lemma SnapDown(cur: int, next: int, size: int)
    requires size > 0 && 0 <= cur < next
    requires CMod(next, size) == 0 || (CDiv(cur, size) < CDiv(next, size) && CMod(cur, size) != 0)
    ensures (CDiv(next, size) * size) % size == 0
    ensures cur < CDiv(next, size) * size <= next
  {
    CDivMultiple(next, size);
    FloorBounds(cur, size);
    FloorBounds(next, size);
    MulMono(cur / size + 1, next / size, size);
  }

  /** The upward snap lands on a multiple of `size` in [next, cur]. */
  lemma SnapUp(cur: int, next: int, size: int)
    requires size > 0 && 0 <= cur && next < cur
    requires CMod(next, size) == 0 || (CDiv(cur, size) > CDiv(next, size) && CMod(cur, size) != 0)
    ensures (CDiv(cur, size) * size) % size == 0
    ensures next <= CDiv(cur, size) * size <= cur
  {
    CDivMultiple(cur, size);
    FloorBounds(cur, size);
    MulMono(0, cur / size, size);
    if next >= 0 {
      FloorBounds(next, size);
      FloorMono(next, cur, size);
      MulMono(next / size, cur / size, size);
      MulMono(next / size + 1, cur / size, size);
    }
  }

  // ---------------------------------------------------------------------
  // Body move (`bodyMove`) and the segment constructor
  // ---------------------------------------------------------------------

  /** `bodyMove(dx, dy, x, y)`: the given step joins the back of the queue
      and the segment takes the step at its front. */
  function BodyMoved(s: Segment, step: Step): (r: Segment)
    ensures |r.moves| == |s.moves|
    ensures r == s.(x := r.x, y := r.y, dx := r.dx, dy := r.dy, moves := r.moves)
  {
    var q := s.moves + [step];
    s.(x := q[0].x, y := q[0].y, dx := q[0].dx, dy := q[0].dy, moves := q[1..])
  }

  /** The segment after a run of body moves, one per entry of `steps`. */
  function BodyRun(s: Segment, steps: seq<Step>): Segment
    decreases |steps|
  {
    if steps == [] then s else BodyMoved(BodyRun(s, steps[..|steps| - 1]), steps[|steps| - 1])
  }

  /** The position and direction a segment holds. */
  function Held(s: Segment): Step {
    Step(s.x, s.y, s.dx, s.dy)
  }

  /** A body replays its input with a fixed lag: after a run of moves the
      queue still has its length L, and the segment holds the step given L
      moves earlier (or a step that was queued before the run). */
  lemma {:induction false} BodyLag(s: Segment, steps: seq<Step>)
    requires steps != []
    ensures |BodyRun(s, steps).moves| == |s.moves|
    ensures BodyRun(s, steps).moves == (s.moves + steps)[|steps|..]
    ensures Held(BodyRun(s, steps)) == (s.moves + steps)[|steps| - 1]
    ensures |steps| > |s.moves| ==> Held(BodyRun(s, steps)) == steps[|steps| - 1 - |s.moves|]
    decreases |steps|
  {
    var n := |steps|;
    var init := steps[..n - 1];
    if n == 1 {
      assert BodyRun(s, init) == s;
    } else {
      BodyLag(s, init);
      assert s.moves + steps == (s.moves + init) + [steps[n - 1]];
    }
  }

  /** The entry every fresh segment's queue is filled with. */
  function DefaultStep(d: Dims): Step {
    Step(d.windowWidth / 2, 0, 1, 1)
  }

  /** A segment as its constructor leaves it: alive, heading right and down,
      at the sprite origin, with a full queue of `width / speed` default
      steps. */
  function Spawned(id: int, isHead: bool, speed: int, d: Dims): (s: Segment)
    requires speed > 0 && d.Valid()
    ensures |s.moves| == s.maxDelayTicks == d.segment.width / speed
    ensures forall m :: m in s.moves ==> m == DefaultStep(d)
    ensures s.status == Alive && (s.kind == Head <==> isHead) && s.id == id
    ensures UnitDirections(s)
  {
    var ticks := d.segment.width / speed;
    Segment(id, if isHead then Head else Body, Alive, 0, 0, 1, 1, 0, 0, speed, ticks,
            seq(ticks, _ => DefaultStep(d)))
  }

  /** The `ECE_CentipedeSegment` constructor and its queue-filling loop. */
  method NewSegment(id: int, isHead: bool, speed: int, d: Dims) returns (s: Segment)
    requires speed > 0 && d.Valid()
    ensures s == Spawned(id, isHead, speed, d)
  {
    var ticks := d.segment.width / speed;
    var moves: seq<Step> := [];
    var i := 0;
    while i < ticks
      invariant 0 <= i <= ticks && moves == seq(i, _ => DefaultStep(d))
      decreases ticks - i
    {
      moves := moves + [DefaultStep(d)];
      i := i + 1;
    }
    s := Segment(id, if isHead then Head else Body, Alive, 0, 0, 1, 1, 0, 0, speed, ticks, moves);
  }

  /** `setSpeed` on one segment: new speed and delay, and the queue popped
      from the front down to the new delay, so the newest steps are kept. */
  function Retimed(s: Segment, speed: int, d: Dims): (r: Segment)
    requires speed > 0 && d.Valid()
    ensures r.speed == speed && r.maxDelayTicks == d.segment.width / speed
    ensures |r.moves| == if |s.moves| > r.maxDelayTicks then r.maxDelayTicks else |s.moves|
    ensures r.moves == s.moves[|s.moves| - |r.moves|..]
    ensures r == s.(speed := r.speed, maxDelayTicks := r.maxDelayTicks, moves := r.moves)
  {
    var ticks := d.segment.width / speed;
    s.(speed := speed, maxDelayTicks := ticks,
       moves := if |s.moves| > ticks then s.moves[|s.moves| - ticks..] else s.moves)
  }
}
