/** The mushroom field: two-hit mushrooms, removal by id, the bordered random
    placement at the start of a game and the mushroom a destroyed segment
    leaves behind. */
module Mushrooms {
  import opened Globals

  /** A mushroom of the field. Two mushrooms are the same mushroom exactly
      when their ids agree; `health` is the number of blast hits it can
      still take. */
  datatype Mushroom = Mushroom(id: int, x: int, y: int, health: int)
  {
    function Bounds(d: Dims): Rect {
      At(x, y, d.mushroom)
    }
  }

  /** Health of a freshly built mushroom. */
  const FullHealth := 2

  /** Number of mushrooms placed at the start of a game. */
  const Placements := 30

  /** A mushroom stops blasts, the player and centipede heads only while its
      health is positive and it overlaps the rectangle. */
  predicate Blocks(m: Mushroom, r: Rect, d: Dims) {
    m.health > 0 && Intersects(r, m.Bounds(d))
  }

  /** Index of the first mushroom, at `from` or later in list order, that
      blocks `r`; `|ms|` when there is none. */
  function FirstBlocking(ms: seq<Mushroom>, r: Rect, d: Dims, from: nat): (k: nat)
    requires from <= |ms|
    ensures from <= k <= |ms|
    ensures k < |ms| ==> Blocks(ms[k], r, d)
    ensures forall j :: from <= j < k ==> !Blocks(ms[j], r, d)
    decreases |ms| - from
  {
    if from == |ms| || Blocks(ms[from], r, d) then from
    else FirstBlocking(ms, r, d, from + 1)
  }

  /** The scan `for (mushroom : mushrooms) if (health > 0 && intersects) ...`
      that stops at the first blocking mushroom. */
  method FindBlocking(ms: seq<Mushroom>, r: Rect, d: Dims) returns (k: nat)
    ensures k == FirstBlocking(ms, r, d, 0)
    ensures k < |ms| <==> exists j :: 0 <= j < |ms| && Blocks(ms[j], r, d)
  {
    k := 0;
    while k < |ms| && !Blocks(ms[k], r, d)
      invariant k <= |ms|
      invariant FirstBlocking(ms, r, d, k) == FirstBlocking(ms, r, d, 0)
      decreases |ms| - k
    {
      k := k + 1;
    }
  }

  /** `mushrooms.remove(m)`: drops every entry equal to `m`, i.e. every
      entry carrying `m`'s id, and keeps the rest in order. */
  function RemoveId(ms: seq<Mushroom>, id: int): (r: seq<Mushroom>)
    ensures forall m :: m in r <==> m in ms && m.id != id
    ensures |r| <= |ms|
    ensures (forall m :: m in ms ==> m.id != id) ==> r == ms
  {
    if ms == [] then []
    else (if ms[0].id == id then [] else [ms[0]]) + RemoveId(ms[1..], id)
  }

  /** Every id in the list was handed out before `next`. */
  predicate IdsBelow(ms: seq<Mushroom>, next: int) {
    forall m :: m in ms ==> m.id < next
  }

  /** The list position of every mushroom. */
  function Positions(ms: seq<Mushroom>): (ps: seq<Spot>)
    ensures |ps| == |ms|
    ensures forall k :: 0 <= k < |ms| ==> ps[k] == Spot(ms[k].x, ms[k].y)
  {
    if ms == [] then [] else Positions(ms[..|ms| - 1]) + [Spot(ms[|ms| - 1].x, ms[|ms| - 1].y)]
  }

  /** The cells `generateMushrooms` may use: whole sprites laid edge to edge,
      leaving one sprite free at the top, left and right of the window and
      three at the bottom. Columns are listed left to right, each top to
      bottom, as the nested loops visit them. */
  function Candidates(d: Dims): seq<Spot>
    requires d.Valid()
  {
    var w, h := d.mushroom.width, d.mushroom.height;
    var nx := if d.windowWidth / w >= 2 then d.windowWidth / w - 2 else 0;
    var ny := if d.windowHeight / h >= 4 then d.windowHeight / h - 4 else 0;
    Grid(w, w, nx, h, h, ny)
  }

  /** A number that is a multiple of `m` after subtracting `m` is itself a
      multiple of `m`. */
  lemma ShiftedMultiple(a: int, m: int)
    requires m > 0 && (a - m) % m == 0
    ensures a % m == 0
  {
    var q := (a - m) / m;
    assert a == (q + 1) * m;
    MulDivMod(q + 1, m);
  }

  /** A positive product with a positive factor has a positive other factor. */
  lemma PositiveFactor(a: int, b: int)
    requires b > 0
    ensures a * b > 0 ==> a > 0
  {
    MulSign(a, b);
  }

  /** Every candidate cell is a multiple of the sprite size, and it lies in
      [w, (W/w)*w - w) horizontally and [h, (H/h)*h - 3h) vertically. */
  lemma {:induction false} CandidateCells(d: Dims, p: Spot)
    requires d.Valid() && p in Candidates(d)
    ensures p.x % d.mushroom.width == 0 && p.y % d.mushroom.height == 0
    ensures d.mushroom.width <= p.x < (d.windowWidth / d.mushroom.width) * d.mushroom.width - d.mushroom.width
    ensures d.mushroom.height <= p.y < (d.windowHeight / d.mushroom.height) * d.mushroom.height - 3 * d.mushroom.height
  {
    var w, h := d.mushroom.width, d.mushroom.height;
    var qx, qy := d.windowWidth / w, d.windowHeight / h;
    var nx := if qx >= 2 then qx - 2 else 0;
    var ny := if qy >= 4 then qy - 4 else 0;
    GridCells(w, w, nx, h, h, ny, p);
    ShiftedMultiple(p.x, w);
    ShiftedMultiple(p.y, h);
    PositiveFactor(nx, w);
    PositiveFactor(ny, h);
    StepOut(qx, 2, w);
    StepOut(qy, 4, h);
  }

  /** The candidates are listed without repetition. */
  lemma CandidatesSorted(d: Dims)
    requires d.Valid()
    ensures Sorted(Candidates(d))
  {
    var w, h := d.mushroom.width, d.mushroom.height;
    var nx := if d.windowWidth / w >= 2 then d.windowWidth / w - 2 else 0;
    var ny := if d.windowHeight / h >= 4 then d.windowHeight / h - 4 else 0;
    GridSorted(w, w, nx, h, h, ny);
  }

  /** The inner loop of the candidate listing: the rows of one column at
      `x`, from `h` down to the fourth row from the bottom. */
  method CandidateColumn(x: int, h: int, qy: int) returns (column: seq<Spot>)
    requires h > 0
    ensures column == Column(x, h, h, if qy >= 4 then qy - 4 else 0)
  {
    var ny := if qy >= 4 then qy - 4 else 0;
    var yEnd := qy * h - h * 3;
    StepOut(qy, 4, h);
    var y, j := h, 0;
    column := [];
    while y < yEnd
      invariant 0 <= j <= ny && y == h + j * h
      invariant column == Column(x, h, h, j)
      decreases yEnd - y
    {
      StepOut(j, 0, h);
      MulLess(j + 1, qy - 3, h);
      column := column + [Spot(x, y)];
      y, j := y + h, j + 1;
    }
    StepOut(j, 0, h);
    MulLess(j + 1, qy - 3, h);
  }

  /** The nested loops that list the candidate cells of `generateMushrooms`. */
  method CandidateList(d: Dims) returns (cells: seq<Spot>)
    requires d.Valid()
    ensures cells == Candidates(d)
  {
    var w, h := d.mushroom.width, d.mushroom.height;
    var qx, qy := d.windowWidth / w, d.windowHeight / h;
    var nx := if qx >= 2 then qx - 2 else 0;
    var ny := if qy >= 4 then qy - 4 else 0;
    var xEnd := qx * w - w;
    StepOut(qx, 2, w);
    cells := [];
    var x, i := w, 0;
    while x < xEnd
      invariant 0 <= i <= nx && x == w + i * w
      invariant cells == Grid(w, w, i, h, h, ny)
      decreases xEnd - x
    {
      StepOut(i, 0, w);
      MulLess(i + 1, qx - 1, w);
      var column := CandidateColumn(x, h, qy);
      assert w + ((i + 1) - 1) * w == x;
      assert Grid(w, w, i + 1, h, h, ny) == cells + column;
      cells := cells + column;
      x, i := x + w, i + 1;
    }
    StepOut(i, 0, w);
    MulLess(i + 1, qx - 1, w);
  }

  /** `cells` with positions `i` and `j` exchanged. */
  function Swap<T>(cells: seq<T>, i: nat, j: nat): (r: seq<T>)
    requires i < |cells| && j < |cells|
    ensures |r| == |cells| && multiset(r) == multiset(cells)
    ensures r[i] == cells[j] && r[j] == cells[i]
    ensures forall k :: 0 <= k < |cells| && k != i && k != j ==> r[k] == cells[k]
  {
    cells[i := cells[j]][j := cells[i]]
  }

  /** A Fisher-Yates shuffle driven by caller-supplied draws, the model of
      `std::shuffle`: for i from `top` down to 1 it swaps position i with
      position `draws[i] % (i + 1)` (with no swap once the draws run out). */
  function Shuffled<T>(cells: seq<T>, top: nat, draws: seq<int>): (r: seq<T>)
    requires top < |cells|
    ensures |r| == |cells| && multiset(r) == multiset(cells)
    decreases top
  {
    if top == 0 then cells
    else
      var j := if top < |draws| then draws[top] % (top + 1) else top;
      Shuffled(Swap(cells, top, j), top - 1, draws)
  }

  /** Any order of the candidate list the shuffle can produce. */
  function Shuffle<T>(cells: seq<T>, draws: seq<int>): (r: seq<T>)
    ensures |r| == |cells| && multiset(r) == multiset(cells)
  {
    if cells == [] then [] else Shuffled(cells, |cells| - 1, draws)
  }

  /** A spot listed once in a strictly sorted list occurs there once. */
  lemma {:induction false} SortedOnce(s: seq<Spot>, p: Spot)
    requires Sorted(s)
    ensures multiset(s)[p] <= 1
    decreases |s|
  {
    if s != [] {
      assert s == [s[0]] + s[1..];
      assert Sorted(s[1..]) by {
        forall i, j | 0 <= i < j < |s[1..]| ensures Before(s[1..][i], s[1..][j]) {
          assert s[1..][i] == s[i + 1] && s[1..][j] == s[j + 1];
        }
      }
      SortedOnce(s[1..], p);
      if p == s[0] {
        assert p !in s[1..] by {
          forall k | 0 <= k < |s[1..]| ensures s[1..][k] != p {
            assert Before(s[0], s[k + 1]);
          }
        }
      }
    }
  }

  /** A list whose elements come from a list without repetitions, each at
      most once over, has no repetitions either. */
  lemma Distinct(r: seq<Spot>, s: seq<Spot>)
    requires Sorted(s) && multiset(r) <= multiset(s)
    ensures forall i, j :: 0 <= i < j < |r| ==> r[i] != r[j]
  {
    forall i, j | 0 <= i < j < |r| ensures r[i] != r[j] {
      if r[i] == r[j] {
        assert r == r[..i] + [r[i]] + r[i + 1..j] + [r[j]] + r[j + 1..];
        assert multiset(r)[r[i]] >= 2;
        SortedOnce(s, r[i]);
        assert false;
      }
    }
  }

  /** The list after one blast hit on its k-th mushroom: that mushroom loses
      one health, and leaves the list together with every entry sharing its
      id once none is left. */
  function Damaged(ms: seq<Mushroom>, k: nat): (r: seq<Mushroom>)
    requires k < |ms|
    ensures |r| <= |ms|
    ensures ms[k].health != 1 ==> r == ms[k := ms[k].(health := ms[k].health - 1)]
  {
    var hit := ms[k].(health := ms[k].health - 1);
    if hit.health == 0 then RemoveId(ms[k := hit], hit.id) else ms[k := hit]
  }

  /** A hit on a mushroom with one health left removes exactly the entries
      carrying its id, and keeps every other entry. */
  lemma DamagedRemoves(ms: seq<Mushroom>, k: nat)
    requires k < |ms|
    ensures ms[k].health == 1 ==>
              forall m :: m in Damaged(ms, k) <==> m in ms && m.id != ms[k].id
  {
    var hit := ms[k].(health := ms[k].health - 1);
    if hit.health == 0 {
      forall m | m in ms && m.id != hit.id ensures m in ms[k := hit] {
        var j :| 0 <= j < |ms| && ms[j] == m;
        assert ms[k := hit][j] == m;
      }
    }
  }

  /** The mushroom list (`std::list<Mushroom> mushrooms`). */
  class Field {
    var items: seq<Mushroom>

    constructor ()
      ensures items == []
    {
      items := [];
    }

    /** `getHealth` of the k-th mushroom. */
    function Health(k: nat): int
      requires k < |items|
      reads this
    {
      items[k].health
    }

    /** `setHealth(h)`: writes the health in place and nothing else; a
        mushroom brought to 0 this way stays in the list. */
    method SetHealth(k: nat, h: int)
      requires k < |items|
      modifies this
      ensures |items| == |old(items)| && Health(k) == h
      ensures items == old(items)[k := old(items)[k].(health := h)]
    {
      items := items[k := items[k].(health := h)];
    }

    /** `Mushroom::handleCollision`: one hit costs one health; the mushroom
        stays listed at health 1 and leaves the list, with every entry
        sharing its id, when its health reaches 0. */
    method HandleCollision(k: nat)
      requires k < |items|
      modifies this
      ensures items == Damaged(old(items), k)
      ensures old(items)[k].health == 1 ==>
                forall m :: m in items <==> m in old(items) && m.id != old(items)[k].id
      ensures old(items)[k].health != 1 ==> |items| == |old(items)| && Health(k) == old(items)[k].health - 1
    {
      DamagedRemoves(items, k);
      var hit := items[k].(health := items[k].health - 1);
      items := items[k := hit];
      if hit.health == 0 {
        items := RemoveId(items, hit.id);
      }
    }

    /** `addMushroom(x, y)`: appends one full-health mushroom with a fresh
        id at (x, y); the mushrooms already listed are untouched and none of
        them is equal to the new one. */
    method Add(x: int, y: int, counter: Counter)
      modifies this, counter
      ensures items == old(items) + [Mushroom(old(counter.next), x, y, FullHealth)]
      ensures counter.next == old(counter.next) + 1
      ensures IdsBelow(old(items), old(counter.next)) ==>
                IdsBelow(items, counter.next) && forall m :: m in old(items) ==> m.id != items[|items| - 1].id
    {
      var id := counter.Take();
      items := items + [Mushroom(id, x, y, FullHealth)];
    }

    /** `mushrooms.clear()`. */
    method Clear()
      modifies this
      ensures items == []
    {
      items := [];
    }

    /** The placement loop of `generateMushrooms` on an empty field: a
        full-health mushroom with a fresh id on each of the first
        min(30, #cells) cells, in order. */
    method PlaceFirst(order: seq<Spot>, counter: Counter) returns (n: nat)
      requires items == []
      modifies this, counter
      ensures n == if |order| < Placements then |order| else Placements
      ensures |items| == n && counter.next == old(counter.next) + n
      ensures forall k :: 0 <= k < n ==>
                items[k] == Mushroom(old(counter.next) + k, order[k].x, order[k].y, FullHealth)
    {
      n := if |order| < Placements then |order| else Placements;
      var start := counter.next;
      var count := 0;
      while count < |order|
        invariant 0 <= count <= n
        invariant |items| == count && counter.next == start + count
        invariant forall k :: 0 <= k < count ==>
                    items[k] == Mushroom(start + k, order[k].x, order[k].y, FullHealth)
        decreases |order| - count
      {
        if count >= Placements {
          break;
        }
        this.Add(order[count].x, order[count].y, counter);
        count := count + 1;
      }
    }

    /** `generateMushrooms`: clears the field, lists the candidate cells,
        shuffles them with the given draws and places full-health mushrooms
        on the first min(30, #candidates) of them, with consecutive fresh
        ids. No two placed mushrooms share a cell. */
    method Generate(d: Dims, draws: seq<int>, counter: Counter)
      requires d.Valid()
      modifies this, counter
      ensures var order := Shuffle(Candidates(d), draws);
              var n := if |order| < Placements then |order| else Placements;
              && |items| == n && Positions(items) == order[..n]
              && counter.next == old(counter.next) + n
      ensures forall k :: 0 <= k < |items| ==>
                items[k].id == old(counter.next) + k && items[k].health == FullHealth
                && Spot(items[k].x, items[k].y) in Candidates(d)
      ensures forall i, j :: 0 <= i < j < |items| ==> Positions(items)[i] != Positions(items)[j]
    {
      this.Clear();
      var cells := CandidateList(d);
      var order := Shuffle(cells, draws);
      var n := PlaceFirst(order, counter);
      ghost var ps := Positions(items);
      assert forall k :: 0 <= k < n ==> ps[k] == order[k];
      assert ps == order[..n];
      PlacedCells(d, order, n);
    }
  }

  /** The first `n` cells of a shuffled candidate list are distinct
      candidates. */
  lemma PlacedCells(d: Dims, order: seq<Spot>, n: nat)
    requires d.Valid() && n <= |order| && multiset(order) == multiset(Candidates(d))
    ensures forall k :: 0 <= k < n ==> order[k] in Candidates(d)
    ensures forall i, j :: 0 <= i < j < n ==> order[..n][i] != order[..n][j]
  {
    var placed := order[..n];
    assert order == placed + order[n..];
    assert multiset(placed) <= multiset(Candidates(d));
    CandidatesSorted(d);
    Distinct(placed, Candidates(d));
    forall k | 0 <= k < n ensures order[k] in Candidates(d) {
      assert order[k] in multiset(order);
    }
  }
}
