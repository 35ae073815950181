/** The player's ship and its laser blasts: gated movement on the lower half
    of the window, life loss on contact, the reload-limited shot, and the
    blast that resolves at most one hit per frame in a fixed order (the
    window edge, a mushroom, a centipede segment, the spider), scoring as it
    goes. */
module LaserBlaster {
  import opened Globals
  import opened Mushrooms
  import opened Segments
  import opened Centipede
  import opened Spiders

  /** Lives at the start of a game. */
  const StartLives := 3

  /** Points for shooting a head, a body segment and the spider. */
  const HeadPoints := 100
  const BodyPoints := 10
  const SpiderPoints := 500

  // ---------------------------------------------------------------------
  // Blasts
  // ---------------------------------------------------------------------

  /** A laser blast (`ECE_LaserBlast`). Two blasts are the same blast
      exactly when their ids agree. */
  datatype Blast = Blast(id: int, x: real, y: real, speed: real)
  {
    function Bounds(d: Dims): Rect {
      Box(x, y, d.blast)
    }
  }

  /** `move`'s step: the blast rises by its speed. */
  function Lowered(b: Blast): (r: Blast)
    ensures r.id == b.id && r.x == b.x && r.speed == b.speed
    ensures b.y - r.y == b.speed
  {
    b.(y := b.y - b.speed)
  }

  /** Every blast id is below `next`, the counter's next value. */
  predicate BlastIdsBelow(bs: seq<Blast>, next: int) {
    forall k :: 0 <= k < |bs| ==> bs[k].id < next
  }

  /** What a blast can touch, and the score it feeds: the player's score,
      the mushroom list, the chain's segments, the spider's status and spawn
      clock, and the id counter's next value. */
  datatype Board = Board(score: int, mushrooms: seq<Mushroom>, segments: seq<Segment>,
                         spiderStatus: CharacterStatus, spiderStart: real, next: int)

  /** A live segment overlapping the rectangle. */
  predicate Touches(s: Segment, r: Rect, d: Dims) {
    s.status == Alive && Intersects(r, s.Bounds(d))
  }

  /** Index of the first segment, at `from` or later in list order, that a
      rectangle touches; `|segs|` when there is none. */
  function FirstTouching(segs: seq<Segment>, r: Rect, d: Dims, from: nat): (k: nat)
    requires from <= |segs|
    ensures from <= k <= |segs|
    ensures k < |segs| ==> Touches(segs[k], r, d)
    ensures forall j :: from <= j < k ==> !Touches(segs[j], r, d)
    decreases |segs| - from
  {
    if from == |segs| || Touches(segs[from], r, d) then from
    else FirstTouching(segs, r, d, from + 1)
  }

  /** The scan over the segment list that stops at the first live segment
      overlapping `r`. */
  method FindTouching(segs: seq<Segment>, r: Rect, d: Dims) returns (k: nat)
    ensures k == FirstTouching(segs, r, d, 0)
    ensures k < |segs| <==> exists j :: 0 <= j < |segs| && Touches(segs[j], r, d)
  {
    k := 0;
    while k < |segs| && !Touches(segs[k], r, d)
      invariant k <= |segs|
      invariant FirstTouching(segs, r, d, k) == FirstTouching(segs, r, d, 0)
      decreases |segs| - k
    {
      k := k + 1;
    }
  }

  /** Points a destroyed segment is worth. */
  function Points(kind: SegmentType): int {
    if kind == Head then HeadPoints else BodyPoints
  }

  /** The segment list after a blast destroys segment k: it dies, and its
      immediate successor, if alive, becomes a head. Nothing else changes. */
  function Killed(segs: seq<Segment>, k: nat): (r: seq<Segment>)
    requires k < |segs|
    ensures |r| == |segs|
  {
    var dead := segs[k := segs[k].(status := Dead)];
    if k + 1 < |segs| && segs[k + 1].status == Alive then dead[k + 1 := dead[k + 1].(kind := Head)]
    else dead
  }

  /** Killing segment k touches only the status of segment k and the type
      of its successor: the successor is promoted exactly when it is alive,
      no other segment changes type or status, and positions, directions
      and queues stay as they were. */
  lemma KilledShape(segs: seq<Segment>, k: nat)
    requires k < |segs|
    ensures var r := Killed(segs, k);
            && r[k].status == Dead && r[k].kind == segs[k].kind
            && (k + 1 < |segs| ==> (r[k + 1].kind == Head <==> segs[k + 1].status == Alive || segs[k + 1].kind == Head))
            && (forall j :: 0 <= j < |segs| && j != k ==> r[j].status == segs[j].status)
            && (forall j :: 0 <= j < |segs| && j != k + 1 ==> r[j].kind == segs[j].kind)
            && (forall j :: 0 <= j < |segs| ==>
                  r[j] == segs[j].(status := r[j].status, kind := r[j].kind))
  {
  }

  /** Where `handleCollision` finds the blast's first hit, in the source's
      order of checks. */
  datatype Hit = OffScreen | OnMushroom(k: nat) | OnSegment(k: nat) | OnSpider | Miss

  /** The first hit of a blast at its current position: above or below the
      window, then the first mushroom with health left it overlaps, then the
      first live segment, then a live spider. */
  function FirstHit(b: Blast, w: Board, spiderBox: Rect, d: Dims): (h: Hit)
    ensures h.OnMushroom? ==> h.k < |w.mushrooms|
    ensures h.OnSegment? ==> h.k < |w.segments|
  {
    var r := b.Bounds(d);
    if b.y < 0.0 || b.y > d.windowHeight as real then OffScreen
    else if FirstBlocking(w.mushrooms, r, d, 0) < |w.mushrooms| then OnMushroom(FirstBlocking(w.mushrooms, r, d, 0))
    else if FirstTouching(w.segments, r, d, 0) < |w.segments| then OnSegment(FirstTouching(w.segments, r, d, 0))
    else if w.spiderStatus == Alive && Intersects(spiderBox, r) then OnSpider
    else Miss
  }

  /** `handleCollision` on a board: what the first hit does, and whether the
      blast is spent. */
  function Struck(b: Blast, w: Board, spiderBox: Rect, now: real, d: Dims): (r: (Board, bool))
  {
    match FirstHit(b, w, spiderBox, d)
    case OffScreen => (w, true)
    case OnMushroom(k) => (w.(mushrooms := Damaged(w.mushrooms, k)), true)
    case OnSegment(k) =>
      var s := w.segments[k];
      (w.(score := w.score + Points(s.kind), segments := Killed(w.segments, k),
          mushrooms := w.mushrooms + [Mushroom(w.next, s.x, s.y, FullHealth)], next := w.next + 1),
       true)
    case OnSpider => (w.(spiderStatus := Dead, spiderStart := now, score := w.score + SpiderPoints), true)
    case Miss => (w, false)
  }

  /** The checks run in a fixed order and the first match ends them: a blast
      is spent exactly when it hits something; a blast out of the window or
      on a mushroom scores nothing and leaves the segments and the spider
      alone; a spider hit kills it, restarts its clock and scores 500 and
      changes nothing else; a miss changes nothing. A segment hit is
      described by `StruckSegment`. */
  lemma StruckOrder(b: Blast, w: Board, spiderBox: Rect, now: real, d: Dims)
    ensures var r := b.Bounds(d);
            var out := Struck(b, w, spiderBox, now, d);
            && (out.1 <==> (b.y < 0.0 || b.y > d.windowHeight as real
                           || (exists j :: 0 <= j < |w.mushrooms| && Blocks(w.mushrooms[j], r, d))
                           || (exists j :: 0 <= j < |w.segments| && Touches(w.segments[j], r, d))
                           || (w.spiderStatus == Alive && Intersects(spiderBox, r))))
            && (!out.1 ==> out.0 == w)
            && ((b.y < 0.0 || b.y > d.windowHeight as real) ==> out.0 == w)
            && (FirstHit(b, w, spiderBox, d).OnMushroom? ==>
                  out.0.score == w.score && out.0.segments == w.segments && out.0.next == w.next
                  && out.0.spiderStatus == w.spiderStatus)
            && (FirstHit(b, w, spiderBox, d) == OnSpider ==>
                  out.0 == w.(spiderStatus := Dead, spiderStart := now, score := w.score + SpiderPoints))
  {
    var r := b.Bounds(d);
    var m := FirstBlocking(w.mushrooms, r, d, 0);
    var k := FirstTouching(w.segments, r, d, 0);
    if m == |w.mushrooms| {
      assert !exists j :: 0 <= j < |w.mushrooms| && Blocks(w.mushrooms[j], r, d);
    }
    if k == |w.segments| {
      assert !exists j :: 0 <= j < |w.segments| && Touches(w.segments[j], r, d);
    }
  }

  /** A segment hit on segment k: that segment dies, the score gains 100 for
      a head and 10 for a body, and one full-health mushroom with the next
      id is appended at the segment's place; the spider is untouched. */
  lemma StruckSegment(b: Blast, w: Board, spiderBox: Rect, now: real, d: Dims, k: nat)
    requires FirstHit(b, w, spiderBox, d) == OnSegment(k)
    ensures var out := Struck(b, w, spiderBox, now, d).0;
            && k < |w.segments| && out.segments[k].status == Dead
            && out.score == w.score + (if w.segments[k].kind == Head then 100 else 10)
            && out.mushrooms == w.mushrooms + [Mushroom(w.next, w.segments[k].x, w.segments[k].y, 2)]
            && out.next == w.next + 1
            && out.spiderStatus == w.spiderStatus && out.spiderStart == w.spiderStart
  {
  }

  /** One frame of one blast (`move`): it rises by its speed, then resolves
      its first hit. */
  function Flight(b: Blast, w: Board, spiderBox: Rect, now: real, d: Dims): (r: (Board, bool))
  {
    Struck(Lowered(b), w, spiderBox, now, d)
  }

  /** The blast loop of `update` over the first blasts of the list: each
      blast moves and resolves in list order against the board the earlier
      ones left; the spent ones are erased and the rest kept, moved, in
      order. */
  function Volley(bs: seq<Blast>, w: Board, spiderBox: Rect, now: real, d: Dims): (r: (Board, seq<Blast>))
    ensures |r.1| <= |bs|
    decreases |bs|
  {
    if bs == [] then (w, [])
    else
      var before := Volley(bs[..|bs| - 1], w, spiderBox, now, d);
      var b := Lowered(bs[|bs| - 1]);
      var out := Flight(bs[|bs| - 1], before.0, spiderBox, now, d);
      (out.0, before.1 + (if out.1 then [] else [b]))
  }

  /** One more blast of the volley: it flies against the board the earlier
      ones left, and is kept, moved, when it is not spent. */
  lemma VolleyStep(bs: seq<Blast>, j: nat, w: Board, spiderBox: Rect, now: real, d: Dims)
    requires j < |bs|
    ensures var before := Volley(bs[..j], w, spiderBox, now, d);
            var out := Flight(bs[j], before.0, spiderBox, now, d);
            Volley(bs[..j + 1], w, spiderBox, now, d)
              == (out.0, before.1 + (if out.1 then [] else [Lowered(bs[j])]))
  {
    assert bs[..j + 1][..j] == bs[..j];
  }

  /** One turn of the blast loop in terms of the volley: when the first `i`
      blasts kept so far and the board are those of the first `j` blasts of
      `bs`, and the rest of the list is the rest of `bs`, flying the blast at
      `i` extends both to the first `j + 1` blasts of `bs`. */
  lemma VolleyAdvance(bs: seq<Blast>, j: nat, w0: Board, spiderBox: Rect, now: real, d: Dims,
                      pre: seq<Blast>, i: nat, post: seq<Blast>, w: Board, spent: bool)
    requires j < |bs| && i < |pre|
    requires pre[..i] == Volley(bs[..j], w0, spiderBox, now, d).1 && pre[i..] == bs[j..]
    requires (w, spent) == Flight(pre[i], Volley(bs[..j], w0, spiderBox, now, d).0, spiderBox, now, d)
    requires post == if spent then pre[..i] + pre[i + 1..] else pre[i := Lowered(pre[i])]
    ensures var k := if spent then i else i + 1;
            && k <= |post| && post[k..] == bs[j + 1..]
            && (w, post[..k]) == Volley(bs[..j + 1], w0, spiderBox, now, d)
  {
    assert pre[i] == pre[i..][0] == bs[j];
    var before := Volley(bs[..j], w0, spiderBox, now, d);
    var moved := Lowered(bs[j]);
    VolleyStep(bs, j, w0, spiderBox, now, d);
    assert Volley(bs[..j + 1], w0, spiderBox, now, d) == (w, before.1 + (if spent then [] else [moved]));
    assert pre[i + 1..] == bs[j + 1..] by {
      assert pre[i..][1..] == bs[j..][1..];
    }
    if spent {
      assert post[..i] == pre[..i] && post[i..] == pre[i + 1..];
      assert before.1 + [] == pre[..i];
    } else {
      assert post[..i + 1] == pre[..i] + [moved] && post[i + 1..] == pre[i + 1..];
    }
  }

  /** `kept` lists moved copies of blasts of `bs`, in the order of `bs`. */
  ghost predicate KeptFrom(kept: seq<Blast>, bs: seq<Blast>)
    decreases |bs|
  {
    if bs == [] then kept == []
    else KeptFrom(kept, bs[..|bs| - 1])
         || (kept != [] && kept[|kept| - 1] == Lowered(bs[|bs| - 1])
             && KeptFrom(kept[..|kept| - 1], bs[..|bs| - 1]))
  }

  /** The score only rises by whole hits: every volley leaves it at least
      where it was. */
  lemma StruckScore(b: Blast, w: Board, spiderBox: Rect, now: real, d: Dims)
    ensures var s := Struck(b, w, spiderBox, now, d).0.score - w.score;
            s == 0 || s == BodyPoints || s == HeadPoints || s == SpiderPoints
  {
  }

  /** A mushroom hit keeps the ids that were there and adds none. */
  lemma DamagedIdsBelow(ms: seq<Mushroom>, k: nat, next: int)
    requires k < |ms| && IdsBelow(ms, next)
    ensures IdsBelow(Damaged(ms, k), next)
  {
    if ms[k].health == 1 {
      DamagedRemoves(ms, k);
    } else {
      forall m | m in Damaged(ms, k) ensures m.id < next {
        var j :| 0 <= j < |ms| && Damaged(ms, k)[j] == m;
        assert m.id == ms[j].id;
      }
    }
  }

  /** The blast loop keeps moved copies of blasts of the list, in their
      order (which ones is stated by `VolleyKept`); the score never drops;
      segments are neither added nor removed and a dead segment stays dead;
      each segment hit adds one mushroom, and a mushroom list whose ids are
      all below the id counter stays so, so every new mushroom took a fresh
      id. */
  lemma {:induction false} VolleyKeeps(bs: seq<Blast>, w: Board, spiderBox: Rect, now: real, d: Dims)
    ensures var v := Volley(bs, w, spiderBox, now, d);
            && KeptFrom(v.1, bs)
            && v.0.score >= w.score
            && |v.0.segments| == |w.segments|
            && (forall j :: 0 <= j < |w.segments| && w.segments[j].status == Dead ==> v.0.segments[j].status == Dead)
            && v.0.next - w.next >= 0 && |v.0.mushrooms| - |w.mushrooms| <= v.0.next - w.next
            && (IdsBelow(w.mushrooms, w.next) ==> IdsBelow(v.0.mushrooms, v.0.next))
    decreases |bs|
  {
    if bs != [] {
      var prefix := bs[..|bs| - 1];
      VolleyKeeps(prefix, w, spiderBox, now, d);
      var before := Volley(prefix, w, spiderBox, now, d);
      var b := Lowered(bs[|bs| - 1]);
      StruckScore(b, before.0, spiderBox, now, d);
      var h := FirstHit(b, before.0, spiderBox, d);
      if h.OnSegment? {
        KilledShape(before.0.segments, h.k);
      }
      if h.OnMushroom? && IdsBelow(before.0.mushrooms, before.0.next) {
        DamagedIdsBelow(before.0.mushrooms, h.k, before.0.next);
      }
      var v := Volley(bs, w, spiderBox, now, d);
      var out := Flight(bs[|bs| - 1], before.0, spiderBox, now, d);
      if out.1 {
        assert v.1 == before.1;
      } else {
        assert v.1 == before.1 + [b];
        assert v.1[..|v.1| - 1] == before.1;
      }
    }
  }

  /** The indices of the blasts whose flight misses, in list order; each
      blast flies against the board the blasts before it left. */
  function Missed(bs: seq<Blast>, w: Board, spiderBox: Rect, now: real, d: Dims): (r: seq<nat>)
    ensures forall k :: 0 <= k < |r| ==> r[k] < |bs|
    ensures forall k, l :: 0 <= k < l < |r| ==> r[k] < r[l]
    decreases |bs|
  {
    if bs == [] then []
    else
      var prefix := bs[..|bs| - 1];
      var out := Flight(bs[|bs| - 1], Volley(prefix, w, spiderBox, now, d).0, spiderBox, now, d);
      Missed(prefix, w, spiderBox, now, d) + (if out.1 then [] else [|bs| - 1])
  }

  /** A blast is listed as missed exactly when its flight, against the
      board the earlier blasts left, does not spend it. */
  lemma {:induction false} MissedExact(bs: seq<Blast>, w: Board, spiderBox: Rect, now: real, d: Dims, i: nat)
    requires i < |bs|
    ensures i in Missed(bs, w, spiderBox, now, d)
            <==> !Flight(bs[i], Volley(bs[..i], w, spiderBox, now, d).0, spiderBox, now, d).1
    decreases |bs|
  {
    var prefix := bs[..|bs| - 1];
    var m := Missed(prefix, w, spiderBox, now, d);
    if i < |bs| - 1 {
      MissedExact(prefix, w, spiderBox, now, d, i);
      assert prefix[..i] == bs[..i] && prefix[i] == bs[i];
      assert |bs| - 1 !in m;
    } else {
      assert bs[..i] == prefix;
      assert i !in m;
    }
  }

  /** The blast loop keeps exactly the missed blasts, each moved, in their
      order. */
  lemma {:induction false} VolleyKept(bs: seq<Blast>, w: Board, spiderBox: Rect, now: real, d: Dims)
    ensures var v := Volley(bs, w, spiderBox, now, d);
            var m := Missed(bs, w, spiderBox, now, d);
            |v.1| == |m| && forall k :: 0 <= k < |m| ==> v.1[k] == Lowered(bs[m[k]])
    decreases |bs|
  {
    if bs != [] {
      var prefix := bs[..|bs| - 1];
      VolleyKept(prefix, w, spiderBox, now, d);
      var m := Missed(prefix, w, spiderBox, now, d);
      forall k | 0 <= k < |m| ensures prefix[m[k]] == bs[m[k]] {
      }
    }
  }

  /** Killing and promoting segments keeps every segment in step with the
      chain's speed. */
  lemma {:induction false} VolleyPaced(bs: seq<Blast>, w: Board, spiderBox: Rect, now: real, d: Dims, speed: int)
    requires speed > 0 && AllPaced(w.segments, speed, d)
    ensures AllPaced(Volley(bs, w, spiderBox, now, d).0.segments, speed, d)
    decreases |bs|
  {
    if bs != [] {
      var prefix := bs[..|bs| - 1];
      VolleyPaced(prefix, w, spiderBox, now, d, speed);
      var before := Volley(prefix, w, spiderBox, now, d);
      var h := FirstHit(Lowered(bs[|bs| - 1]), before.0, spiderBox, d);
      if h.OnSegment? {
        KilledShape(before.0.segments, h.k);
        var r := Killed(before.0.segments, h.k);
        forall j | 0 <= j < |r| ensures Paced(r[j], speed, d) {
          assert Paced(before.0.segments[j], speed, d);
        }
      }
    }
  }

  // ---------------------------------------------------------------------
  // Movement
  // ---------------------------------------------------------------------

  /** A float position on screen. */
  datatype Place = Place(x: real, y: real)

  /** Where the ship starts and returns to after losing a life: the middle
      column, two ship heights above the bottom edge. */
  function Spawn(d: Dims): Place {
    Place((d.windowWidth / 2) as real, (d.windowHeight - 2 * d.player.height) as real)
  }

  /** The ship's area: inside the window and not above its middle. */
  predicate InZone(p: Place, d: Dims) {
    && 0.0 <= p.x && p.x + d.player.width as real <= d.windowWidth as real
    && 0.5 * d.windowHeight as real <= p.y && p.y + d.player.height as real <= d.windowHeight as real
  }

  /** The position one arrow key asks for, and whether it stays in the
      ship's area in that direction. */
  function Wanted(p: Place, dir: Direction, speed: real, d: Dims): (real, real, bool) {
    match dir
    case Up => (p.x, p.y - speed, p.y - speed >= 0.5 * d.windowHeight as real)
    case Down => (p.x, p.y + speed, p.y + d.player.height as real + speed <= d.windowHeight as real)
    case Left => (p.x - speed, p.y, p.x - speed >= 0.0)
    case Right => (p.x + speed, p.y, p.x + d.player.width as real + speed <= d.windowWidth as real)
    case Still => (p.x, p.y, false)
  }

  /** The movement of `update`: the wanted step is taken only when it stays
      in bounds and no mushroom with health left would overlap the ship. */
  function Stepped(p: Place, dir: Direction, speed: real, ms: seq<Mushroom>, d: Dims): Place {
    var (nx, ny, fits) := Wanted(p, dir, speed, d);
    if fits && FirstBlocking(ms, Box(nx, ny, d.player), d, 0) == |ms| then Place(nx, ny) else p
  }

  /** A step is either refused, leaving the ship where it was, or it moves
      the ship by exactly `speed` in the key's direction to a place in
      bounds (never above the window's middle) where no mushroom with
      health left overlaps it. */
  lemma StepGated(p: Place, dir: Direction, speed: real, ms: seq<Mushroom>, d: Dims)
    ensures var q := Stepped(p, dir, speed, ms, d);
            q == p || (
              && dir != Still
              && (forall j :: 0 <= j < |ms| ==> !Blocks(ms[j], Box(q.x, q.y, d.player), d))
              && (dir == Up ==> q == Place(p.x, p.y - speed) && q.y >= 0.5 * d.windowHeight as real)
              && (dir == Down ==> q == Place(p.x, p.y + speed) && q.y + d.player.height as real <= d.windowHeight as real)
              && (dir == Left ==> q == Place(p.x - speed, p.y) && q.x >= 0.0)
              && (dir == Right ==> q == Place(p.x + speed, p.y) && q.x + d.player.width as real <= d.windowWidth as real))
  {
  }

  /** A ship in its area stays there whatever key is held. */
  lemma StepStaysInZone(p: Place, dir: Direction, speed: real, ms: seq<Mushroom>, d: Dims)
    requires InZone(p, d) && speed >= 0.0
    ensures InZone(Stepped(p, dir, speed, ms, d), d)
  {
  }

  /** Whether the ship at `box` loses a life: a live segment or the live
      spider overlaps it. */
  predicate Contact(segs: seq<Segment>, spiderAlive: bool, spiderBox: Rect, box: Rect, d: Dims) {
    FirstTouching(segs, box, d, 0) < |segs| || (spiderAlive && Intersects(spiderBox, box))
  }

  /** The segments after a soft reset of a chain of this length. */
  function Regrown(id0: int, length: int, speed: int, d: Dims): (r: seq<Segment>)
    requires d.Valid() && (length > 0 ==> speed > 0)
    ensures |r| == if length > 0 then length else 0
  {
    if length > 0 then Fresh(id0, length, speed, d) else []
  }

  /** The state a blast can touch, read off the objects that hold it. */
  function Snapshot(player: Player, field: Field, chain: Chain, spider: Spider, counter: Counter): Board
    reads player, field, chain, spider, counter
  {
    Board(player.score, field.items, chain.segments, spider.status, spider.spawnStart, counter.next)
  }

  /** The segment branch of `handleCollision`: segment k dies, its live
      successor becomes a head, the kill is scored and a full-health
      mushroom with a fresh id takes the segment's place. */
  method KillSegment(k: nat, player: Player, field: Field, chain: Chain, counter: Counter)
    requires k < |chain.segments|
    modifies player`score, field, chain`segments, counter
    ensures var s := old(chain.segments[k]);
            && chain.segments == Killed(old(chain.segments), k)
            && player.score == old(player.score) + Points(s.kind)
            && field.items == old(field.items) + [Mushroom(old(counter.next), s.x, s.y, FullHealth)]
            && counter.next == old(counter.next) + 1
  {
    var s := chain.segments[k];
    chain.segments := chain.segments[k := s.(status := Dead)];
    if s.kind == Head {
      player.IncrementScore(HeadPoints);
    } else {
      player.IncrementScore(BodyPoints);
    }
    if k + 1 < |chain.segments| && chain.segments[k + 1].status == Alive {
      chain.segments := chain.segments[k + 1 := chain.segments[k + 1].(kind := Head)];
    }
    field.Add(s.x, s.y, counter);
  }

  /** `ECE_LaserBlast::handleCollision` against the live objects. */
  method Strike(b: Blast, player: Player, field: Field, chain: Chain, spider: Spider, counter: Counter,
                now: real, d: Dims)
    returns (spent: bool)
    modifies player`score, field, chain`segments, spider`status, spider`spawnStart, counter
    ensures (Snapshot(player, field, chain, spider, counter), spent)
            == Struck(b, old(Snapshot(player, field, chain, spider, counter)), spider.Bounds(), now, d)
  {
    ghost var w := Snapshot(player, field, chain, spider, counter);
    ghost var box := spider.Bounds();
    var r := b.Bounds(d);
    if b.y < 0.0 || b.y > d.windowHeight as real {
      return true;
    }
    var m := FindBlocking(field.items, r, d);
    if m < |field.items| {
      assert FirstHit(b, w, box, d) == OnMushroom(m);
      field.HandleCollision(m);
      return true;
    }
    var k := FindTouching(chain.segments, r, d);
    if k < |chain.segments| {
      assert FirstHit(b, w, box, d) == OnSegment(k);
      KillSegment(k, player, field, chain, counter);
      return true;
    }
    if spider.status == Alive && Intersects(spider.Bounds(), r) {
      spider.HandleCollision(now);
      player.IncrementScore(SpiderPoints);
      return true;
    }
    return false;
  }

  /** `ECE_LaserBlast::move`: the blast rises by its speed, then resolves its
      first hit; the moved blast is handed back. */
  method MoveBlast(b: Blast, player: Player, field: Field, chain: Chain, spider: Spider, counter: Counter,
                   now: real, d: Dims)
    returns (moved: Blast, spent: bool)
    modifies player`score, field, chain`segments, spider`status, spider`spawnStart, counter
    ensures moved == Lowered(b)
    ensures (Snapshot(player, field, chain, spider, counter), spent)
            == Flight(b, old(Snapshot(player, field, chain, spider, counter)), spider.Bounds(), now, d)
  {
    moved := b.(y := b.y - b.speed);
    spent := Strike(moved, player, field, chain, spider, counter, now, d);
  }

  // ---------------------------------------------------------------------
  // The ship
  // ---------------------------------------------------------------------

  /** `ECE_LaserBlaster`: the ship, its blasts and the game's score. */
  class Player {
    var x: real
    var y: real
    var speed: real
    var blastSpeed: real
    /** Seconds between two shots. */
    var shotDelay: real
    /** When the reload clock was last restarted, in seconds. */
    var shotStart: real
    var lives: int
    var score: int
    var highScore: int
    var blasts: seq<Blast>

    function Where(): Place
      reads this
    {
      Place(x, y)
    }

    function Bounds(d: Dims): Rect
      reads this
    {
      Box(x, y, d.player)
    }

    /** `ECE_LaserBlaster(speed, blastSpeed, reloadTime)`: three lives, no
        score, the reload clock started, at the spawn place. */
    constructor (speed: real, blastSpeed: real, reloadTime: real, now: real, d: Dims)
      ensures this.speed == speed && this.blastSpeed == blastSpeed && shotDelay == reloadTime
      ensures lives == StartLives && score == 0 && highScore == 0 && blasts == []
      ensures shotStart == now && Where() == Spawn(d)
    {
      this.speed := speed;
      this.blastSpeed := blastSpeed;
      lives := StartLives;
      score := 0;
      highScore := 0;
      shotDelay := reloadTime;
      shotStart := now;
      blasts := [];
      var p := Spawn(d);
      x, y := p.x, p.y;
    }

    /** `resetScore`. */
    method ResetScore()
      modifies this`score
      ensures score == 0
    {
      score := 0;
    }

    /** `incrementScore(i)`: adds exactly `i`. */
    method IncrementScore(i: int)
      modifies this`score
      ensures score == old(score) + i
    {
      score := score + i;
    }

    /** `updateHighScore`: the high score becomes the larger of the two, so
        it never drops and is at least the score. */
    method UpdateHighScore()
      modifies this`highScore
      ensures highScore >= old(highScore) && highScore >= score
      ensures highScore == score || highScore == old(highScore)
    {
      highScore := if score > highScore then score else highScore;
    }

    /** `resetLives`. */
    method ResetLives()
      modifies this`lives
      ensures lives == StartLives
    {
      lives := StartLives;
    }

    /** `decrementLives`: one life less, with no floor at zero. */
    method DecrementLives()
      modifies this`lives
      ensures lives == old(lives) - 1
    {
      lives := lives - 1;
    }

    /** `resetPosition`. */
    method ResetPosition(d: Dims)
      modifies this`x, this`y
      ensures Where() == Spawn(d)
    {
      x := (d.windowWidth / 2) as real;
      y := (d.windowHeight - 2 * d.player.height) as real;
    }

    /** `reset`: no blasts, no score, three lives, back at the spawn place;
        the high score stays. */
    method Reset(d: Dims)
      modifies this`blasts, this`score, this`lives, this`x, this`y
      ensures blasts == [] && score == 0 && lives == StartLives && Where() == Spawn(d)
    {
      blasts := [];
      ResetScore();
      ResetLives();
      ResetPosition(d);
    }

    /** `shoot`: while the reload clock has run less than the shot delay
        nothing happens; otherwise the clock restarts and one blast with a
        fresh id is appended, centred on the ship's top edge. */
    method Shoot(now: real, counter: Counter, d: Dims)
      modifies this`blasts, this`shotStart, counter
      ensures now - old(shotStart) < shotDelay ==>
                blasts == old(blasts) && shotStart == old(shotStart) && counter.next == old(counter.next)
      ensures !(now - old(shotStart) < shotDelay) ==>
                && shotStart == now && counter.next == old(counter.next) + 1
                && blasts == old(blasts) + [Blast(old(counter.next),
                                                  x + 0.5 * d.player.width as real - 0.5 * d.blast.width as real,
                                                  y, blastSpeed)]
      ensures BlastIdsBelow(old(blasts), old(counter.next)) ==>
                && BlastIdsBelow(blasts, counter.next)
                && (|blasts| > |old(blasts)| ==>
                      forall k :: 0 <= k < |old(blasts)| ==> old(blasts)[k].id != blasts[|blasts| - 1].id)
    {
      if now - shotStart < shotDelay {
        return;
      }
      shotStart := now;
      var id := counter.Take();
      blasts := blasts + [Blast(id, x + 0.5 * d.player.width as real - 0.5 * d.blast.width as real, y, blastSpeed)];
    }

    /** The movement part of `update`. */
    method Walk(dir: Direction, field: Field, d: Dims)
      modifies this`x, this`y
      ensures Where() == Stepped(old(Where()), dir, speed, field.items, d)
    {
      var p := Wanted(Where(), dir, speed, d);
      if p.2 {
        var k := FindBlocking(field.items, Box(p.0, p.1, d.player), d);
        if k == |field.items| {
          x, y := p.0, p.1;
        }
      }
    }

    /** The contact part of `update`: touching a live segment or the live
        spider costs one life, soft-resets the chain and sends the ship
        back to the spawn place; the score is left alone. */
    method Collide(chain: Chain, spider: Spider, counter: Counter, d: Dims) returns (lost: bool)
      requires d.Valid() && chain.Valid(d)
      modifies this`lives, this`x, this`y, chain`segments, chain`speed, counter
      ensures chain.speed == old(chain.speed) && chain.Valid(d)
      ensures lost == Contact(old(chain.segments), spider.status == Alive, spider.Bounds(), old(Bounds(d)), d)
      ensures lost ==> && lives == old(lives) - 1 && Where() == Spawn(d)
                       && chain.segments == Regrown(old(counter.next), chain.length, chain.speed, d)
                       && counter.next == old(counter.next) + |chain.segments|
      ensures !lost ==> && lives == old(lives) && Where() == old(Where())
                        && chain.segments == old(chain.segments) && counter.next == old(counter.next)
    {
      var k := FindTouching(chain.segments, Bounds(d), d);
      lost := k < |chain.segments| || (spider.status == Alive && Intersects(spider.Bounds(), Bounds(d)));
      if lost {
        DecrementLives();
        chain.Reset(false, counter, d);
        ResetPosition(d);
      }
    }

    /** One turn of the blast loop of `update` on the blast at index `i`: it
        moves and resolves its first hit, and is then erased if spent or
        kept in place, moved. */
    method FlyOne(i: nat, field: Field, chain: Chain, spider: Spider, counter: Counter, now: real, d: Dims)
      returns (spent: bool)
      requires i < |blasts|
      modifies this`blasts, this`score, field, chain`segments, spider`status, spider`spawnStart, counter
      ensures (Snapshot(this, field, chain, spider, counter), spent)
              == Flight(old(blasts)[i], old(Snapshot(this, field, chain, spider, counter)), spider.Bounds(), now, d)
      ensures blasts == if spent then old(blasts)[..i] + old(blasts)[i + 1..]
                        else old(blasts)[i := Lowered(old(blasts)[i])]
    {
      var moved;
      moved, spent := MoveBlast(blasts[i], this, field, chain, spider, counter, now, d);
      if spent {
        blasts := blasts[..i] + blasts[i + 1..];
      } else {
        blasts := blasts[i := moved];
      }
    }

    /** The blast loop of `update`: every blast moves and resolves in list
        order; the spent ones are erased in place and the rest kept. */
    method FireVolley(field: Field, chain: Chain, spider: Spider, counter: Counter, now: real, d: Dims)
      modifies this`blasts, this`score, field, chain`segments, spider`status, spider`spawnStart, counter
      ensures (Snapshot(this, field, chain, spider, counter), blasts)
              == Volley(old(blasts), old(Snapshot(this, field, chain, spider, counter)), spider.Bounds(), now, d)
    {
      ghost var bs := blasts;
      ghost var w0 := Snapshot(this, field, chain, spider, counter);
      ghost var box := spider.Bounds();
      var i := 0;
      ghost var j := 0;
      while i < |blasts|
        invariant 0 <= i <= |blasts| && 0 <= j <= |bs|
        invariant spider.Bounds() == box
        invariant (Snapshot(this, field, chain, spider, counter), blasts[..i]) == Volley(bs[..j], w0, box, now, d)
        invariant blasts[i..] == bs[j..]
        decreases |blasts| - i
      {
        ghost var pre := blasts;
        var spent := FlyOne(i, field, chain, spider, counter, now, d);
        VolleyAdvance(bs, j, w0, box, now, d, pre, i, blasts, Snapshot(this, field, chain, spider, counter), spent);
        if !spent {
          i := i + 1;
        }
        j := j + 1;
      }
      assert |bs| - j == |blasts[i..]| == 0;
      assert bs[..j] == bs && blasts[..i] == blasts;
    }

    /** The first two steps of `update`: move, then check for contact. */
    method Land(dir: Direction, field: Field, chain: Chain, spider: Spider, counter: Counter, d: Dims)
      returns (lost: bool)
      requires d.Valid() && chain.Valid(d)
      modifies this`x, this`y, this`lives, chain`segments, chain`speed, counter
      ensures chain.speed == old(chain.speed) && chain.Valid(d)
      ensures var p := Stepped(old(Where()), dir, speed, field.items, d);
              && lost == Contact(old(chain.segments), spider.status == Alive, spider.Bounds(),
                                 Box(p.x, p.y, d.player), d)
              && lives == old(lives) - (if lost then 1 else 0)
              && Where() == (if lost then Spawn(d) else p)
      ensures chain.segments == if lost then Regrown(old(counter.next), chain.length, chain.speed, d)
                                else old(chain.segments)
      ensures counter.next == old(counter.next) + (if lost then |chain.segments| else 0)
    {
      Walk(dir, field, d);
      lost := Collide(chain, spider, counter, d);
    }

    /** `update(direction)`: move, lose a life on contact, then fly the
        blasts against the chain as it then stands. */
    method Update(dir: Direction, field: Field, chain: Chain, spider: Spider, counter: Counter,
                  now: real, d: Dims)
      requires d.Valid() && chain.Valid(d)
      modifies this`x, this`y, this`lives, this`blasts, this`score,
               field, chain`segments, chain`speed, spider`status, spider`spawnStart, counter
      ensures chain.speed == old(chain.speed) && chain.Valid(d)
      ensures var p := Stepped(old(Where()), dir, speed, old(field.items), d);
              var lost := Contact(old(chain.segments), old(spider.status) == Alive, spider.Bounds(),
                                  Box(p.x, p.y, d.player), d);
              var segs := if lost then Regrown(old(counter.next), chain.length, chain.speed, d)
                          else old(chain.segments);
              var start := Board(old(score), old(field.items), segs, old(spider.status), old(spider.spawnStart),
                                 old(counter.next) + (if lost then |segs| else 0));
              && lives == old(lives) - (if lost then 1 else 0)
              && Where() == (if lost then Spawn(d) else p)
              && (Snapshot(this, field, chain, spider, counter), blasts)
                 == Volley(old(blasts), start, spider.Bounds(), now, d)
    {
      var lost := Land(dir, field, chain, spider, counter, d);
      ghost var w1 := Snapshot(this, field, chain, spider, counter);
      FireVolley(field, chain, spider, counter, now, d);
      VolleyKeeps(old(blasts), w1, spider.Bounds(), now, d);
      if w1.segments != [] {
        VolleyPaced(old(blasts), w1, spider.Bounds(), now, d, chain.speed);
      }
    }
  }
}
