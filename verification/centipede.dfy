/** The centipede as a whole (`ECE_Centipede`): its segment list, its speed
    and random-walk mode, and the per-frame move that steers every live
    head and makes every live body follow the segment in front of it. */
module Centipede {
  import opened Globals
  import opened Mushrooms
  import opened Segments

  /** A segment in step with a chain running at `speed`: same speed, the
      delay the sprite width calls for, a queue no longer than that delay,
      and unit directions everywhere. */
  predicate Paced(s: Segment, speed: int, d: Dims)
    requires speed > 0
  {
    && s.speed == speed && s.maxDelayTicks == d.segment.width / speed
    && |s.moves| <= s.maxDelayTicks && UnitDirections(s)
  }

  predicate AllPaced(segs: seq<Segment>, speed: int, d: Dims)
    requires speed > 0
  {
    forall k :: 0 <= k < |segs| ==> Paced(segs[k], speed, d)
  }

  /** Retiming a segment whose directions are all unit puts it in step with
      the new speed. */
  lemma RetimedPaced(s: Segment, speed: int, d: Dims)
    requires speed > 0 && d.Valid() && UnitDirections(s)
    ensures Paced(Retimed(s, speed, d), speed, d)
  {
    var r := Retimed(s, speed, d);
    assert r == s.(speed := r.speed, maxDelayTicks := r.maxDelayTicks, moves := r.moves);
    assert |r.moves| <= r.maxDelayTicks;
    SuffixUnit(s.moves, |s.moves| - |r.moves|);
  }

  /** A suffix of a queue of unit steps is a queue of unit steps. */
  lemma SuffixUnit(moves: seq<Step>, k: nat)
    requires k <= |moves| && forall m :: m in moves ==> Unit(m.dx) && Unit(m.dy)
    ensures forall m :: m in moves[k..] ==> Unit(m.dx) && Unit(m.dy)
  {
    forall m | m in moves[k..] ensures m in moves {
      var j :| 0 <= j < |moves[k..]| && moves[k..][j] == m;
      assert moves[k + j] == m;
    }
  }

  /** The body of the loop of `setSpeed` on one segment: new speed and
      delay, then the queue popped from the front while it is longer than
      the delay. */
  method RetimeSegment(s: Segment, newSpeed: int, ticks: int, d: Dims) returns (r: Segment)
    requires newSpeed > 0 && d.Valid() && ticks == d.segment.width / newSpeed
    ensures r == Retimed(s, newSpeed, d)
  {
    r := s.(speed := newSpeed, maxDelayTicks := ticks);
    var moves := r.moves;
    while |moves| > ticks
      invariant moves == s.moves[|s.moves| - |moves|..]
      invariant |s.moves| > ticks ==> |moves| >= ticks
      invariant |s.moves| <= ticks ==> moves == s.moves
      decreases |moves|
    {
      moves := moves[1..];
    }
    r := r.(moves := moves);
  }

  /** Retiming a chain in step with one speed puts it in step with the new
      one. */
  lemma RetimedAllPaced(segs: seq<Segment>, r: seq<Segment>, speed: int, newSpeed: int, d: Dims)
    requires speed > 0 && newSpeed > 0 && d.Valid() && AllPaced(segs, speed, d) && |r| == |segs|
    requires forall k :: 0 <= k < |r| ==> r[k] == Retimed(segs[k], newSpeed, d)
    ensures AllPaced(r, newSpeed, d)
  {
    forall k | 0 <= k < |r| ensures Paced(r[k], newSpeed, d) {
      assert Paced(segs[k], speed, d);
      RetimedPaced(segs[k], newSpeed, d);
    }
  }

  // ---------------------------------------------------------------------
  // The move of one frame
  // ---------------------------------------------------------------------

  /** How a live head takes its turn, given the segment list as it stands. */
  type HeadRule = (Segment, seq<Segment>) -> Segment

  /** The head's turn in `move`: `checkCollisions` against the list as it
      stands, then `headMove`. */
  function HeadTurn(sc: Scene): HeadRule
    requires sc.d.Valid()
  {
    (s: Segment, segs: seq<Segment>) => HeadMoved(Steer(s, sc.(segments := segs)), sc.d)
  }

  /** Two versions of a segment with the same identity, kind and status. */
  predicate SameKind(a: Segment, b: Segment) {
    a.id == b.id && a.kind == b.kind && a.status == b.status
  }

  /** A head's turn keeps its identity, kind and status. */
  ghost predicate KeepsIdentity(turn: HeadRule) {
    forall s, segs :: SameKind(turn(s, segs), s)
  }

  lemma HeadTurnKeepsIdentity(sc: Scene)
    requires sc.d.Valid()
    ensures KeepsIdentity(HeadTurn(sc))
  {
  }

  /** One segment's turn in `move`, with `segs` the list as it stands and
      `saved` the position and direction of the last live segment moved: a
      live head takes its turn, a live body takes `saved`, a dead segment
      stays as it is. */
  function Advance(s: Segment, saved: Step, segs: seq<Segment>, turn: HeadRule): (r: Segment)
    ensures KeepsIdentity(turn) ==> SameKind(r, s)
  {
    if s.kind == Head && s.status == Alive then turn(s, segs)
    else if s.status == Alive then BodyMoved(s, saved)
    else s
  }

  /** `move`, segment by segment: `done` holds the segments already moved,
      `rest` those still to move, and `saved` the position and direction of
      the last live segment moved; a dead segment leaves `saved` as it is. */
  function MoveFrom(done: seq<Segment>, rest: seq<Segment>, saved: Step, turn: HeadRule): (r: seq<Segment>)
    ensures |r| == |done| + |rest|
    decreases |rest|
  {
    if rest == [] then done
    else
      var r := Advance(rest[0], saved, done + rest, turn);
      MoveFrom(done + [r], rest[1..], if r.status == Alive then Held(r) else saved, turn)
  }

  /** The segment list after one `move`; `sc` supplies the mushrooms, the
      player's height, the random-walk flag and the dimensions. */
  function Moved(segs: seq<Segment>, sc: Scene): (r: seq<Segment>)
    requires sc.d.Valid()
    ensures |r| == |segs|
  {
    MoveFrom([], segs, NoStep, HeadTurn(sc))
  }

  /** What a body at index `k` of `r` is handed: the position and direction
      of the nearest live segment before it, or `NoStep` when there is none. */
  function Feed(r: seq<Segment>, k: nat): Step
    requires k <= |r|
  {
    if k == 0 then NoStep
    else if r[k - 1].status == Alive then Held(r[k - 1])
    else Feed(r, k - 1)
  }

  /** `Feed` only looks at the segments before `k`. */
  lemma {:induction false} FeedPrefix(a: seq<Segment>, b: seq<Segment>, k: nat)
    requires k <= |a| && k <= |b| && a[..k] == b[..k]
    ensures Feed(a, k) == Feed(b, k)
  {
    if k > 0 {
      assert a[k - 1] == a[..k][k - 1] == b[..k][k - 1] == b[k - 1];
      assert a[..k - 1] == a[..k][..k - 1];
      assert b[..k - 1] == b[..k][..k - 1];
      FeedPrefix(a, b, k - 1);
    }
  }

  /** Segment `k` of `orig` comes out of the move as its own turn makes it,
      taken on the list with the segments before it already moved and fed
      from the nearest live segment before it, as already moved. */
  predicate MovedAt(orig: seq<Segment>, res: seq<Segment>, k: nat, turn: HeadRule)
    requires k < |orig| == |res|
  {
    res[k] == Advance(orig[k], Feed(res, k), res[..k] + orig[k..], turn)
  }

  /** Segment `k` keeps its identity, kind and status. */
  predicate SameAt(orig: seq<Segment>, res: seq<Segment>, k: int)
    requires 0 <= k < |orig| && k < |res|
  {
    SameKind(res[k], orig[k])
  }

  /** The identity, kind and status of every segment survive its move. */
  predicate SameSegments(orig: seq<Segment>, res: seq<Segment>) {
    |orig| == |res| && forall k :: 0 <= k < |orig| ==> SameAt(orig, res, k)
  }

  /** The moved segments stay in front and every segment keeps its
      identity, kind and status. */
  lemma {:induction false} MoveFromPrefix(done: seq<Segment>, rest: seq<Segment>, saved: Step, turn: HeadRule)
    requires KeepsIdentity(turn)
    ensures var res := MoveFrom(done, rest, saved, turn);
            && res[..|done|] == done
            && forall k :: |done| <= k < |res| ==> SameAt(done + rest, res, k)
    decreases |rest|
  {
    var res := MoveFrom(done, rest, saved, turn);
    if rest != [] {
      var n := |done|;
      var next := Advance(rest[0], saved, done + rest, turn);
      var saved' := if next.status == Alive then Held(next) else saved;
      var done' := done + [next];
      assert res == MoveFrom(done', rest[1..], saved', turn);
      MoveFromPrefix(done', rest[1..], saved', turn);
      assert res[..n + 1] == done';
      assert res[..n] == done' [..n] == done;
      assert res[n] == next;
      forall k | n < k < |res|
        ensures SameAt(done + rest, res, k)
      {
        assert SameAt(done' + rest[1..], res, k);
        assert (done' + rest[1..])[k] == (done + rest)[k];
      }
    }
  }

  /** The move segment by segment, for any split into moved and unmoved. */
  lemma {:induction false} MoveFromShape(done: seq<Segment>, rest: seq<Segment>, saved: Step, turn: HeadRule)
    requires KeepsIdentity(turn) && saved == Feed(done, |done|)
    ensures var res := MoveFrom(done, rest, saved, turn);
            forall k :: |done| <= k < |res| ==> MovedAt(done + rest, res, k, turn)
    decreases |rest|
  {
    var res := MoveFrom(done, rest, saved, turn);
    if rest != [] {
      var n := |done|;
      var next := Advance(rest[0], saved, done + rest, turn);
      var saved' := if next.status == Alive then Held(next) else saved;
      var done' := done + [next];
      assert res == MoveFrom(done', rest[1..], saved', turn);
      assert done'[..n] == done;
      FeedPrefix(done', done, n);
      assert Feed(done', n + 1) == saved';
      MoveFromShape(done', rest[1..], saved', turn);
      MoveFromPrefix(done', rest[1..], saved', turn);
      assert res[..n + 1] == done';
      assert res[..n] == done' [..n] == done;
      assert res[n] == next;
      assert res[..n] + (done + rest)[n..] == done + rest;
      FeedPrefix(res, done, n);
      assert MovedAt(done + rest, res, n, turn);
      forall k | n < k < |res|
        ensures MovedAt(done + rest, res, k, turn)
      {
        assert MovedAt(done' + rest[1..], res, k, turn);
        assert (done' + rest[1..])[k..] == (done + rest)[k..];
        assert (done' + rest[1..])[k] == (done + rest)[k];
      }
    }
  }

  /** `move` as a whole: the list keeps its length and every segment its
      identity, kind and status, and every segment moves as `MovedAt` says. */
  lemma MovedShape(segs: seq<Segment>, sc: Scene)
    requires sc.d.Valid()
    ensures SameSegments(segs, Moved(segs, sc))
    ensures forall k :: 0 <= k < |segs| ==> MovedAt(segs, Moved(segs, sc), k, HeadTurn(sc))
  {
    HeadTurnKeepsIdentity(sc);
    MoveFromShape([], segs, NoStep, HeadTurn(sc));
    MoveFromPrefix([], segs, NoStep, HeadTurn(sc));
    assert [] + segs == segs;
  }

  /** A dead segment is not touched by the move. */
  lemma MoveSkipsDead(segs: seq<Segment>, sc: Scene, k: nat)
    requires sc.d.Valid() && k < |segs| && segs[k].status == Dead
    ensures Moved(segs, sc)[k] == segs[k]
  {
    MovedShape(segs, sc);
    assert MovedAt(segs, Moved(segs, sc), k, HeadTurn(sc));
  }

  /** A live head steers against the list with every segment before it
      already moved and the rest not yet moved, then makes its own move. */
  lemma HeadSteers(segs: seq<Segment>, sc: Scene, k: nat)
    requires sc.d.Valid() && k < |segs| && segs[k].kind == Head && segs[k].status == Alive
    ensures var r := Moved(segs, sc);
            r[k] == HeadMoved(Steer(segs[k], sc.(segments := r[..k] + segs[k..])), sc.d)
  {
    MovedShape(segs, sc);
    assert MovedAt(segs, Moved(segs, sc), k, HeadTurn(sc));
  }

  /** `j` is the nearest live segment before index `k`. */
  predicate NearestLive(segs: seq<Segment>, j: int, k: int) {
    && 0 <= j < k <= |segs| && segs[j].status == Alive
    && forall i :: j < i < k ==> segs[i].status == Dead
  }

  /** `Feed` hands over the nearest live segment before `k`, or the zero
      step when every segment before `k` is dead. */
  lemma {:induction false} FeedNearest(r: seq<Segment>, k: nat)
    requires k <= |r|
    ensures forall j :: NearestLive(r, j, k) ==> Feed(r, k) == Held(r[j])
    ensures (forall j :: 0 <= j < k ==> r[j].status == Dead) ==> Feed(r, k) == NoStep
  {
    if k > 0 {
      FeedNearest(r, k - 1);
      if r[k - 1].status == Alive {
        assert Feed(r, k) == Held(r[k - 1]);
        forall j | NearestLive(r, j, k) ensures Feed(r, k) == Held(r[j]) {
          if j < k - 1 {
            assert false;
          }
        }
      } else {
        assert Feed(r, k) == Feed(r, k - 1);
        forall j | NearestLive(r, j, k) ensures Feed(r, k) == Held(r[j]) {
          assert NearestLive(r, j, k - 1);
        }
      }
    }
  }

  /** A live body takes the step its queue has held longest, and the
      position and direction of the nearest live segment in front of it,
      as that segment stands after its own move, join the back of its
      queue; with no live segment in front, the zero step joins. */
  lemma BodyFollows(segs: seq<Segment>, sc: Scene, k: nat)
    requires sc.d.Valid() && k < |segs| && segs[k].kind == Body && segs[k].status == Alive
    ensures var r := Moved(segs, sc);
            var q := segs[k].moves + [Feed(r, k)];
            Held(r[k]) == q[0] && r[k].moves == q[1..]
    ensures forall j :: NearestLive(segs, j, k) ==> Feed(Moved(segs, sc), k) == Held(Moved(segs, sc)[j])
    ensures (forall j :: 0 <= j < k ==> segs[j].status == Dead) ==> Feed(Moved(segs, sc), k) == NoStep
  {
    var r := Moved(segs, sc);
    MovedShape(segs, sc);
    assert MovedAt(segs, r, k, HeadTurn(sc));
    assert r[k] == BodyMoved(segs[k], Feed(r, k));
    FeedNearest(r, k);
    forall j | NearestLive(segs, j, k) ensures NearestLive(r, j, k) {
      assert SameAt(segs, r, j);
      forall i | j < i < k ensures r[i].status == Dead {
        assert SameAt(segs, r, i);
      }
    }
    forall j | 0 <= j < k ensures r[j].status == segs[j].status {
      assert SameAt(segs, r, j);
    }
  }

  /** The nearest live segment's step has unit directions when every
      segment before `k` has. */
  lemma {:induction false} FeedUnit(r: seq<Segment>, k: nat)
    requires k <= |r| && forall j :: 0 <= j < k ==> UnitDirections(r[j])
    ensures Unit(Feed(r, k).dx) && Unit(Feed(r, k).dy)
  {
    if k > 0 && r[k - 1].status == Dead {
      FeedUnit(r, k - 1);
    }
  }

  /** A head's turn keeps a paced head paced. */
  ghost predicate KeepsPace(turn: HeadRule, speed: int, d: Dims)
    requires speed > 0
  {
    forall s: Segment, segs: seq<Segment> :: s.kind == Head && s.status == Alive && Paced(s, speed, d) ==> Paced(turn(s, segs), speed, d)
  }

  /** Steering and `headMove` keep a head in step with the chain. */
  lemma HeadTurnPaced(sc: Scene, speed: int)
    requires sc.d.Valid() && speed > 0
    ensures KeepsPace(HeadTurn(sc), speed, sc.d)
  {
    forall s: Segment, segs: seq<Segment> | s.kind == Head && s.status == Alive && Paced(s, speed, sc.d)
      ensures Paced(HeadTurn(sc)(s, segs), speed, sc.d)
    {
      var st := Steer(s, sc.(segments := segs));
      SteerUnit(s, sc.(segments := segs));
      assert Paced(st, speed, sc.d);
      HeadMovedPaced(st, speed, sc.d);
    }
  }

  /** `headMove` keeps a segment in step: it changes only the position and
      may clear dy. */
  lemma HeadMovedPaced(s: Segment, speed: int, d: Dims)
    requires d.Valid() && speed > 0 && Paced(s, speed, d)
    ensures Paced(HeadMoved(s, d), speed, d)
  {
    var r := HeadMoved(s, d);
    assert r == s.(x := r.x, y := r.y, dy := r.dy);
  }

  /** A move keeps every segment in step with the chain's speed. */
  lemma MovePaced(segs: seq<Segment>, sc: Scene, speed: int)
    requires sc.d.Valid() && speed > 0 && AllPaced(segs, speed, sc.d)
    ensures AllPaced(Moved(segs, sc), speed, sc.d)
  {
    MovedShape(segs, sc);
    HeadTurnPaced(sc, speed);
    PacedUpTo(segs, Moved(segs, sc), HeadTurn(sc), speed, sc.d, |segs|);
  }

  lemma {:induction false} PacedUpTo(segs: seq<Segment>, r: seq<Segment>, turn: HeadRule, speed: int, d: Dims, n: nat)
    requires speed > 0 && AllPaced(segs, speed, d) && KeepsPace(turn, speed, d)
    requires n <= |segs| == |r| && forall k :: 0 <= k < |segs| ==> MovedAt(segs, r, k, turn)
    ensures forall k :: 0 <= k < n ==> Paced(r[k], speed, d)
  {
    if n > 0 {
      PacedUpTo(segs, r, turn, speed, d, n - 1);
      var k := n - 1;
      assert MovedAt(segs, r, k, turn);
      assert Paced(segs[k], speed, d);
      if segs[k].kind != Head && segs[k].status == Alive {
        FeedUnit(r, k);
      }
    }
  }

  // ---------------------------------------------------------------------
  // The class
  // ---------------------------------------------------------------------

  /** A fresh chain of `count` segments at the top of the middle column:
      the first a head, the rest bodies, with consecutive ids from `id0`. */
  function Fresh(id0: int, count: int, speed: int, d: Dims): (r: seq<Segment>)
    requires speed > 0 && d.Valid()
    ensures |r| == if count > 0 then count else 0
  {
    seq(if count > 0 then count else 0,
        k => Spawned(id0 + k, k == 0, speed, d).(x := d.windowWidth / 2))
  }

  /** A fresh chain is in step with its speed, alive throughout, headed by
      its only head, and its ids run consecutively so none repeats. */
  lemma FreshChain(id0: int, count: int, speed: int, d: Dims)
    requires speed > 0 && d.Valid()
    ensures var r := Fresh(id0, count, speed, d);
            && AllPaced(r, speed, d)
            && (forall k :: 0 <= k < |r| ==> r[k].status == Alive && r[k].id == id0 + k)
            && (forall k :: 0 <= k < |r| ==> (r[k].kind == Head <==> k == 0))
            && (forall k :: 0 <= k < |r| ==> r[k].x == d.windowWidth / 2 && r[k].y == 0)
            && (forall k :: 0 <= k < |r| ==> |r[k].moves| == r[k].maxDelayTicks)
  {
    var r := Fresh(id0, count, speed, d);
    forall k | 0 <= k < |r|
      ensures Paced(r[k], speed, d) && r[k].status == Alive && r[k].id == id0 + k
      ensures (r[k].kind == Head <==> k == 0) && r[k].x == d.windowWidth / 2 && r[k].y == 0
      ensures |r[k].moves| == r[k].maxDelayTicks
    {
      var s := Spawned(id0 + k, k == 0, speed, d);
      assert r[k] == s.(x := d.windowWidth / 2);
    }
  }

  /** The construction loop shared by the constructor and `reset`: one new
      segment per turn, each taking the next id from the counter. */
  method SpawnChain(count: int, speed: int, counter: Counter, d: Dims) returns (segs: seq<Segment>)
    requires speed > 0 && d.Valid()
    modifies counter
    ensures segs == Fresh(old(counter.next), count, speed, d)
    ensures counter.next == old(counter.next) + |segs|
  {
    segs := [];
    var i := 0;
    while i < count
      invariant 0 <= i <= (if count > 0 then count else 0)
      invariant segs == Fresh(old(counter.next), i, speed, d)
      invariant counter.next == old(counter.next) + i
      decreases count - i
    {
      var id := counter.Take();
      var s := NewSegment(id, i == 0, speed, d);
      segs := segs + [s.(x := d.windowWidth / 2)];
      assert segs == Fresh(old(counter.next), i + 1, speed, d);
      i := i + 1;
    }
  }

  class Chain {
    var segments: seq<Segment>
    var length: int
    var initialSpeed: int
    var speed: int
    var randomWalk: bool

    /** Every segment runs at the chain's speed, and a chain that has
        segments to build has positive speeds to build them with. */
    predicate Valid(d: Dims)
      reads this
    {
      && (length > 0 ==> initialSpeed > 0 && speed > 0)
      && (segments != [] ==> speed > 0 && AllPaced(segments, speed, d))
    }

    /** `ECE_Centipede(segmentCount, initialSpeed)`. */
    constructor (segmentCount: int, initialSpeed: int, counter: Counter, d: Dims)
      requires d.Valid() && (segmentCount > 0 ==> initialSpeed > 0)
      modifies counter
      ensures length == segmentCount && this.initialSpeed == initialSpeed
      ensures speed == initialSpeed && !randomWalk
      ensures segmentCount > 0 ==> segments == Fresh(old(counter.next), segmentCount, initialSpeed, d)
      ensures segmentCount <= 0 ==> segments == []
      ensures counter.next == old(counter.next) + |segments|
      ensures Valid(d)
    {
      length := segmentCount;
      this.initialSpeed := initialSpeed;
      speed := initialSpeed;
      randomWalk := false;
      var segs: seq<Segment> := [];
      if segmentCount > 0 {
        segs := SpawnChain(segmentCount, initialSpeed, counter, d);
        FreshChain(old(counter.next), segmentCount, initialSpeed, d);
      }
      segments := segs;
    }

    /** `setRandomWalk`: sets the mode and gives the front segment a downward
        random-walk direction in it, none outside it. */
    method SetRandomWalk(on: bool, ghost d: Dims)
      requires segments != []
      requires Valid(d)
      modifies this`randomWalk, this`segments
      ensures randomWalk == on
      ensures segments == old(segments)[0 := old(segments)[0].(randomWalkDy := if on then 1 else 0)]
      ensures Valid(d)
    {
      randomWalk := on;
      segments := segments[0 := segments[0].(randomWalkDy := if on then 1 else 0)];
    }

    /** `setSpeed`: every segment takes the new speed and delay, and its
        queue is popped from the front down to the new delay. */
    method SetSpeed(newSpeed: int, d: Dims)
      requires newSpeed > 0 && d.Valid()
      modifies this`speed, this`segments
      ensures speed == newSpeed && |segments| == |old(segments)|
      ensures forall k :: 0 <= k < |segments| ==> segments[k] == Retimed(old(segments)[k], newSpeed, d)
      ensures old(Valid(d)) ==> Valid(d)
    {
      speed := newSpeed;
      var ticks := d.segment.width / newSpeed;
      var i := 0;
      while i < |segments|
        invariant 0 <= i <= |segments| == |old(segments)| && speed == newSpeed
        invariant forall k :: 0 <= k < i ==> segments[k] == Retimed(old(segments)[k], newSpeed, d)
        invariant forall k :: i <= k < |segments| ==> segments[k] == old(segments)[k]
        decreases |segments| - i
      {
        var r := RetimeSegment(segments[i], newSpeed, ticks, d);
        segments := segments[i := r];
        i := i + 1;
      }
      if old(Valid(d)) && segments != [] {
        RetimedAllPaced(old(segments), segments, old(speed), newSpeed, d);
      }
    }

    /** `checkCollisions` on the segment at index `i`, in place: it steers
        against the list as it stands and the mushrooms of `field`. */
    method CheckCollisions(i: nat, field: Field, playerY: real, d: Dims)
      requires i < |segments| && d.Valid()
      modifies this`segments
      ensures segments == old(segments)[i := Steer(old(segments)[i],
                  Scene(old(segments), field.items, playerY, randomWalk, d))]
    {
      var r := Segments.CheckCollisions(segments[i], Scene(segments, field.items, playerY, randomWalk, d));
      segments := segments[i := r];
    }

    /** `headMove` on the segment at index `i`, in place. */
    method HeadMove(i: nat, d: Dims)
      requires i < |segments| && d.Valid()
      modifies this`segments
      ensures segments == old(segments)[i := HeadMoved(old(segments)[i], d)]
    {
      segments := segments[i := HeadMoved(segments[i], d)];
    }

    /** `bodyMove` on the segment at index `i`, in place. */
    method BodyMove(i: nat, step: Step)
      requires i < |segments|
      modifies this`segments
      ensures segments == old(segments)[i := BodyMoved(old(segments)[i], step)]
    {
      segments := segments[i := BodyMoved(segments[i], step)];
    }

    /** The head branch of `move` at index `i`: `checkCollisions`, then
        `headMove`, in place. */
    method HeadAdvance(i: nat, field: Field, playerY: real, d: Dims)
      requires i < |segments| && d.Valid()
      modifies this`segments
      ensures segments == old(segments)[i := HeadTurn(Scene([], field.items, playerY, randomWalk, d))
                                               (old(segments)[i], old(segments))]
    {
      ghost var sc := Scene([], field.items, playerY, randomWalk, d);
      CheckCollisions(i, field, playerY, d);
      HeadMove(i, d);
      assert sc.(segments := old(segments)) == Scene(old(segments), field.items, playerY, randomWalk, d);
    }

    /** One turn of `move` at index `i`, in place; answers the position and
        direction to hand to the next body. */
    method AdvanceAt(i: nat, saved: Step, field: Field, playerY: real, d: Dims) returns (next: Step)
      requires i < |segments| && d.Valid()
      modifies this`segments
      ensures segments == old(segments)[i := Advance(old(segments)[i], saved, old(segments),
                                                     HeadTurn(Scene([], field.items, playerY, randomWalk, d)))]
      ensures next == if segments[i].status == Alive then Held(segments[i]) else saved
    {
      var s := segments[i];
      next := saved;
      if s.kind == Head && s.status == Alive {
        HeadAdvance(i, field, playerY, d);
        var x, y, dx, dy := segments[i].x, segments[i].y, segments[i].dx, segments[i].dy;
        next := Step(x, y, dx, dy);
      } else if s.status == Alive {
        BodyMove(i, saved);
        var x, y, dx, dy := segments[i].x, segments[i].y, segments[i].dx, segments[i].dy;
        next := Step(x, y, dx, dy);
      }
    }

    /** `move`: one pass over the list, carrying the position and direction
        of the last live segment moved. */
    method Move(field: Field, playerY: real, d: Dims)
      requires d.Valid()
      modifies this`segments
      ensures segments == Moved(old(segments), Scene([], field.items, playerY, randomWalk, d))
      ensures old(Valid(d)) ==> Valid(d)
    {
      ghost var sc := Scene([], field.items, playerY, randomWalk, d);
      var saved := NoStep;
      var i := 0;
      while i < |segments|
        invariant 0 <= i <= |segments| == |old(segments)|
        invariant MoveFrom(segments[..i], segments[i..], saved, HeadTurn(sc)) == Moved(old(segments), sc)
        decreases |segments| - i
      {
        ghost var before := segments;
        assert before[..i] + before[i..] == before;
        saved := AdvanceAt(i, saved, field, playerY, d);
        assert segments[..i + 1] == before[..i] + [segments[i]];
        assert segments[i + 1..] == before[i..][1..];
        i := i + 1;
      }
      assert segments[..i] == segments;
      if old(Valid(d)) && segments != [] {
        MovePaced(old(segments), sc, speed);
      }
    }

    /** `reset(resetSpeed)`: a fresh chain of the original length, at the
        initial speed when asked to, at the current speed otherwise. */
    method Reset(resetSpeed: bool, counter: Counter, d: Dims)
      requires d.Valid() && Valid(d)
      modifies this`segments, this`speed, counter
      ensures speed == if resetSpeed then initialSpeed else old(speed)
      ensures length > 0 ==> segments == Fresh(old(counter.next), length, speed, d)
      ensures length <= 0 ==> segments == []
      ensures counter.next == old(counter.next) + |segments|
      ensures Valid(d)
    {
      segments := [];
      if resetSpeed {
        speed := initialSpeed;
      }
      if length > 0 {
        segments := SpawnChain(length, speed, counter, d);
        FreshChain(old(counter.next), length, speed, d);
      }
    }
  }
}
