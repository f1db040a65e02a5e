/**
 * `next_seat`: count the occupied seats visible from a cell in the eight
 * compass directions and apply the seating rule. In `Next` mode a direction
 * shows the adjacent cell; in `Inf` mode the look passes over floor and stops
 * at the first seat or at the edge of the layout. The functions here state the
 * rule; the methods `Walk` and `NextSeat` carry out the loops of `day11.rs`.
 */
module Rules {
  import opened Seats
  import opened Grid

  /** The eight directions as (column step, row step), in the order of `day11.rs`. */
  const Dirs: seq<(int, int)> := [(-1, -1), (-1, 0), (-1, 1), (0, -1), (0, 1), (1, -1), (1, 0), (1, 1)]

  predicate IsDir(dx: int, dy: int) {
    -1 <= dx <= 1 && -1 <= dy <= 1 && (dx != 0 || dy != 0)
  }

  /** `Dirs` lists each of the eight compass directions exactly once. */
  lemma DirsAreDirections()
    ensures forall i :: 0 <= i < |Dirs| ==> IsDir(Dirs[i].0, Dirs[i].1)
    ensures forall dx, dy :: IsDir(dx, dy) ==> (dx, dy) in Dirs
    ensures forall i, j :: 0 <= i < j < |Dirs| ==> Dirs[i] != Dirs[j]
  {
    forall dx, dy | IsDir(dx, dy) ensures (dx, dy) in Dirs {
      assert dx == -1 || dx == 0 || dx == 1;
      assert dy == -1 || dy == 0 || dy == 1;
    }
  }

  /** Column `x` is checked against the width, row `y` against the height. */
  predicate InBounds(h: int, w: int, p: Position) {
    0 <= p.x < w && 0 <= p.y < h
  }

  function Move(p: Position, dx: int, dy: int): Position {
    Position(p.x + dx, p.y + dy)
  }

  /** The position `k` steps from `p` in direction (dx, dy). */
  function Ray(p: Position, dx: int, dy: int, k: int): Position {
    Position(p.x + k * dx, p.y + k * dy)
  }

  lemma RayStep(p: Position, dx: int, dy: int, k: int)
    ensures Move(Ray(p, dx, dy, k), dx, dy) == Ray(p, dx, dy, k + 1)
    ensures Ray(p, dx, dy, 0) == p && Ray(p, dx, dy, 1) == Move(p, dx, dy)
  {
  }

  /** How many steps in direction (dx, dy) stay inside the layout, plus one. */
  function Reach(h: int, w: int, p: Position, dx: int, dy: int): int {
    (if dx > 0 then w - p.x else if dx < 0 then p.x + 1 else 0)
    + (if dy > 0 then h - p.y else if dy < 0 then p.y + 1 else 0)
  }

  predicate SeatIs(l: Layout, h: int, w: int, p: Position, s: Seat)
    requires Rect(l, h, w)
  {
    InBounds(h, w, p) && l[p.y][p.x] == s
  }

  /** Whether the look that starts at `p` and goes on in direction (dx, dy)
      ends on an occupied seat. */
  function Sees(l: Layout, h: int, w: int, p: Position, dx: int, dy: int, depth: Depth): bool
    requires Rect(l, h, w) && IsDir(dx, dy)
    decreases Reach(h, w, p, dx, dy)
  {
    if depth == Inf && SeatIs(l, h, w, p, Floor) then Sees(l, h, w, Move(p, dx, dy), dx, dy, depth)
    else SeatIs(l, h, w, p, Occupied)
  }

  /** Whether direction number `i` shows an occupied seat from `p`. */
  predicate SeesDir(l: Layout, h: int, w: int, p: Position, depth: Depth, i: int)
    requires Rect(l, h, w) && 0 <= i < |Dirs|
  {
    Sees(l, h, w, Move(p, Dirs[i].0, Dirs[i].1), Dirs[i].0, Dirs[i].1, depth)
  }

  /** Occupied seats seen in the first `n` directions (the fold over `dirs`). */
  function SeenAmong(l: Layout, h: int, w: int, p: Position, depth: Depth, n: nat): (count: nat)
    requires Rect(l, h, w) && n <= |Dirs|
    ensures count <= n
  {
    if n == 0 then 0 else SeenAmong(l, h, w, p, depth, n - 1) + (if SeesDir(l, h, w, p, depth, n - 1) then 1 else 0)
  }

  function NeighbourCount(l: Layout, h: int, w: int, p: Position, depth: Depth): (count: nat)
    requires Rect(l, h, w)
    ensures count <= 8
  {
    SeenAmong(l, h, w, p, depth, |Dirs|)
  }

  /** Occupied neighbours needed to vacate a seat. */
  function Threshold(depth: Depth): nat {
    match depth
    case Inf => 5
    case Next => 4
  }

  /** The seating rule: an empty seat with no occupied neighbour is taken, an
      occupied seat with at least `threshold` occupied neighbours is left, and
      every other cell (floor included) stays as it is. */
  function Transition(seat: Seat, count: nat, threshold: nat): (next: Seat)
    ensures next == Floor <==> seat == Floor
    ensures next != seat <==> (seat == Empty && count == 0) || (seat == Occupied && count >= threshold)
  {
    match seat
    case Empty => if count == 0 then Occupied else Empty
    case Occupied => if count >= threshold then Empty else Occupied
    case Floor => Floor
  }

  /** The value of cell `p` in the next generation. */
  function NextCell(l: Layout, h: int, w: int, p: Position, depth: Depth): Seat
    requires Rect(l, h, w) && InBounds(h, w, p)
  {
    Transition(l[p.y][p.x], NeighbourCount(l, h, w, p, depth), Threshold(depth))
  }

  // ---------------------------------------------------------------------
  // Properties of the rule.

  /** Every cell from `from` up to (not including) `k` steps along the ray is floor. */
  ghost predicate FloorFrom(l: Layout, h: int, w: int, p: Position, dx: int, dy: int, from: int, k: int)
    requires Rect(l, h, w)
  {
    forall j :: from <= j < k ==> SeatIs(l, h, w, Ray(p, dx, dy, j), Floor)
  }

  /** The first seat on the ray at or after step `from` exists and is occupied. */
  ghost predicate FirstSeatOccupied(l: Layout, h: int, w: int, p: Position, dx: int, dy: int, from: int)
    requires Rect(l, h, w)
  {
    exists k :: from <= k && SeatIs(l, h, w, Ray(p, dx, dy, k), Occupied) && FloorFrom(l, h, w, p, dx, dy, from, k)
  }

  lemma {:induction false} SeesFrom(l: Layout, h: int, w: int, p: Position, dx: int, dy: int, m: int)
    requires Rect(l, h, w) && IsDir(dx, dy)
    ensures Sees(l, h, w, Ray(p, dx, dy, m), dx, dy, Inf) <==> FirstSeatOccupied(l, h, w, p, dx, dy, m)
    decreases Reach(h, w, Ray(p, dx, dy, m), dx, dy)
  {
    var q := Ray(p, dx, dy, m);
    if SeatIs(l, h, w, q, Floor) {
      RayStep(p, dx, dy, m);
      SeesFrom(l, h, w, p, dx, dy, m + 1);
      if FirstSeatOccupied(l, h, w, p, dx, dy, m + 1) {
        var k :| m + 1 <= k && SeatIs(l, h, w, Ray(p, dx, dy, k), Occupied) && FloorFrom(l, h, w, p, dx, dy, m + 1, k);
        assert FloorFrom(l, h, w, p, dx, dy, m, k);
      }
      if FirstSeatOccupied(l, h, w, p, dx, dy, m) {
        var k :| m <= k && SeatIs(l, h, w, Ray(p, dx, dy, k), Occupied) && FloorFrom(l, h, w, p, dx, dy, m, k);
        assert k != m;
        assert FloorFrom(l, h, w, p, dx, dy, m + 1, k);
      }
    } else {
      if SeatIs(l, h, w, q, Occupied) {
        assert FloorFrom(l, h, w, p, dx, dy, m, m);
      }
    }
  }

  /** What a direction shows: in `Next` mode the adjacent cell, in `Inf` mode
      the first seat past any floor, counted only when it is occupied. */
  lemma VisibleSeat(l: Layout, h: int, w: int, p: Position, dx: int, dy: int, depth: Depth)
    requires Rect(l, h, w) && IsDir(dx, dy)
    ensures depth == Next ==> (Sees(l, h, w, Move(p, dx, dy), dx, dy, depth) <==> SeatIs(l, h, w, Move(p, dx, dy), Occupied))
    ensures depth == Inf ==> (Sees(l, h, w, Move(p, dx, dy), dx, dy, depth) <==> FirstSeatOccupied(l, h, w, p, dx, dy, 1))
  {
    RayStep(p, dx, dy, 0);
    SeesFrom(l, h, w, p, dx, dy, 1);
  }

  /** The answer of each direction, in the order of `Dirs`. */
  function Visible(l: Layout, h: int, w: int, p: Position, depth: Depth): seq<bool>
    requires Rect(l, h, w)
  {
    seq(|Dirs|, i requires 0 <= i < |Dirs| => SeesDir(l, h, w, p, depth, i))
  }

  /** The positions holding `true`. */
  ghost function TrueAt(bs: seq<bool>): set<int> {
    set i | 0 <= i < |bs| && bs[i]
  }

  function CountTrue(bs: seq<bool>): nat {
    if bs == [] then 0 else CountTrue(bs[..|bs| - 1]) + (if bs[|bs| - 1] then 1 else 0)
  }

  lemma {:induction false} CountTrueIsCardinality(bs: seq<bool>)
    ensures CountTrue(bs) == |TrueAt(bs)|
  {
    if bs != [] {
      var n := |bs|;
      CountTrueIsCardinality(bs[..n - 1]);
      var last := if bs[n - 1] then {n - 1} else {};
      assert TrueAt(bs) == TrueAt(bs[..n - 1]) + last;
      assert TrueAt(bs[..n - 1]) !! last;
    }
  }

  lemma {:induction false} SeenAmongCountsTrue(l: Layout, h: int, w: int, p: Position, depth: Depth, n: nat)
    requires Rect(l, h, w) && n <= |Dirs|
    ensures SeenAmong(l, h, w, p, depth, n) == CountTrue(Visible(l, h, w, p, depth)[..n])
  {
    if n > 0 {
      SeenAmongCountsTrue(l, h, w, p, depth, n - 1);
      var v := Visible(l, h, w, p, depth);
      assert v[..n][..n - 1] == v[..n - 1];
    }
  }

  /** The neighbour count is the number of directions that show an occupied seat. */
  lemma NeighbourCountIsCardinality(l: Layout, h: int, w: int, p: Position, depth: Depth)
    requires Rect(l, h, w)
    ensures NeighbourCount(l, h, w, p, depth) == |set i | 0 <= i < |Dirs| && SeesDir(l, h, w, p, depth, i)|
  {
    var v := Visible(l, h, w, p, depth);
    SeenAmongCountsTrue(l, h, w, p, depth, |Dirs|);
    assert v[..|Dirs|] == v;
    CountTrueIsCardinality(v);
    assert TrueAt(v) == set i | 0 <= i < |Dirs| && SeesDir(l, h, w, p, depth, i);
  }

  /** No cell of the layout is an occupied seat. */
  ghost predicate NoneOccupied(l: Layout, h: int, w: int)
    requires Rect(l, h, w)
  {
    forall y, x :: 0 <= y < h && 0 <= x < w ==> l[y][x] != Occupied
  }

  /** Without occupied seats no direction shows one. */
  lemma {:induction false} SeesNothing(l: Layout, h: int, w: int, p: Position, dx: int, dy: int, depth: Depth)
    requires Rect(l, h, w) && IsDir(dx, dy) && NoneOccupied(l, h, w)
    ensures !Sees(l, h, w, p, dx, dy, depth)
    decreases Reach(h, w, p, dx, dy)
  {
    if depth == Inf && SeatIs(l, h, w, p, Floor) {
      SeesNothing(l, h, w, Move(p, dx, dy), dx, dy, depth);
    }
  }

  lemma {:induction false} NoneSeenAmong(l: Layout, h: int, w: int, p: Position, depth: Depth, n: nat)
    requires Rect(l, h, w) && NoneOccupied(l, h, w) && n <= |Dirs|
    ensures SeenAmong(l, h, w, p, depth, n) == 0
  {
    if n > 0 {
      NoneSeenAmong(l, h, w, p, depth, n - 1);
      SeesNothing(l, h, w, Move(p, Dirs[n - 1].0, Dirs[n - 1].1), Dirs[n - 1].0, Dirs[n - 1].1, depth);
    }
  }

  /** In a layout without occupied seats every empty seat is taken and every
      other cell stays. */
  lemma NoneOccupiedFills(l: Layout, h: int, w: int, p: Position, depth: Depth)
    requires Rect(l, h, w) && InBounds(h, w, p) && NoneOccupied(l, h, w)
    ensures NeighbourCount(l, h, w, p, depth) == 0
    ensures NextCell(l, h, w, p, depth) == if l[p.y][p.x] == Empty then Occupied else l[p.y][p.x]
  {
    NoneSeenAmong(l, h, w, p, depth, |Dirs|);
  }

  /** Floor stays floor and a seat stays a seat. */
  lemma FloorStaysFloor(l: Layout, h: int, w: int, p: Position, depth: Depth)
    requires Rect(l, h, w) && InBounds(h, w, p)
    ensures NextCell(l, h, w, p, depth) == Floor <==> l[p.y][p.x] == Floor
  {
  }

  /** An occupied seat is left exactly when at least the mode's threshold of
      occupied seats is seen: 4 adjacent ones, or 5 in sight. */
  lemma OccupiedSeatRule(l: Layout, h: int, w: int, p: Position, depth: Depth)
    requires Rect(l, h, w) && InBounds(h, w, p) && l[p.y][p.x] == Occupied
    ensures NextCell(l, h, w, p, depth) == Empty <==> NeighbourCount(l, h, w, p, depth) >= Threshold(depth)
    ensures NextCell(l, h, w, p, depth) != Floor
    ensures depth == Next ==> Threshold(depth) == 4
    ensures depth == Inf ==> Threshold(depth) == 5
  {
  }

  /** An empty seat is taken exactly when no occupied seat is seen. */
  lemma EmptySeatRule(l: Layout, h: int, w: int, p: Position, depth: Depth)
    requires Rect(l, h, w) && InBounds(h, w, p) && l[p.y][p.x] == Empty
    ensures NextCell(l, h, w, p, depth) == Occupied <==> NeighbourCount(l, h, w, p, depth) == 0
    ensures NextCell(l, h, w, p, depth) != Floor
  {
  }

  // ---------------------------------------------------------------------
  // The loops of `next_seat`.

  /** The inner `while` of `next_seat`: from `start`, in `Inf` mode, move on in
      direction (dx, dy) while the position is inside the layout and on floor.
      It stops outside the layout or on a seat (in `Next` mode at once), every
      cell passed over is floor, and the stop is an occupied seat exactly when
      `Sees` holds. */
  method Walk(s: State, start: Position, dx: int, dy: int, depth: Depth)
    returns (stop: Position, ghost steps: nat)
    requires Valid(s) && IsDir(dx, dy)
    ensures stop == Ray(start, dx, dy, steps)
    ensures depth == Next ==> stop == start
    ensures !(depth == Inf && SeatIs(s.seats, s.height, s.width, stop, Floor))
    ensures forall k :: 0 <= k < steps ==> SeatIs(s.seats, s.height, s.width, Ray(start, dx, dy, k), Floor)
    ensures SeatIs(s.seats, s.height, s.width, stop, Occupied) == Sees(s.seats, s.height, s.width, start, dx, dy, depth)
  {
    var width, height := s.width, s.height;
    stop, steps := start, 0;
    while depth == Inf && InBounds(height, width, stop) && s.seats[stop.y][stop.x] == Floor
      invariant stop == Ray(start, dx, dy, steps)
      invariant depth == Next ==> steps == 0
      invariant forall k :: 0 <= k < steps ==> SeatIs(s.seats, height, width, Ray(start, dx, dy, k), Floor)
      invariant Sees(s.seats, height, width, stop, dx, dy, depth) == Sees(s.seats, height, width, start, dx, dy, depth)
      decreases Reach(height, width, stop, dx, dy)
    {
      RayStep(start, dx, dy, steps);
      stop, steps := Move(stop, dx, dy), steps + 1;
    }
  }

  /** `next_seat`: count the occupied seats seen in the eight directions, then
      apply the seating rule with the threshold of the mode. */
  method NextSeat(s: State, pos: Position, depth: Depth) returns (seat: Seat)
    requires Valid(s) && InBounds(s.height, s.width, pos)
    ensures seat == NextCell(s.seats, s.height, s.width, pos, depth)
  {
    var count := 0;
    for i := 0 to |Dirs|
      invariant count == SeenAmong(s.seats, s.height, s.width, pos, depth, i)
    {
      var (xdir, ydir) := Dirs[i];
      var p, _ := Walk(s, Move(pos, xdir, ydir), xdir, ydir, depth);
      if InBounds(s.height, s.width, p) && s.seats[p.y][p.x] == Occupied {
        count := count + 1;
      }
    }
    var cond := Threshold(depth);
    seat := Transition(s.seats[pos.y][pos.x], count, cond);
  }
}
