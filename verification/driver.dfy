/**
 * `rec`: run generations until one changes nothing, then count the occupied
 * seats. The Rust code recurses without bound; here a `fuel` argument bounds
 * the number of generations and `None` reports that it ran out.
 */
module Driver {
  import opened Wrappers
  import opened Seats
  import opened Grid
  import opened Rules
  import opened Generation

  /** The layout after `k` generations. */
  function Iterate(l: Layout, h: nat, w: nat, depth: Depth, k: nat): (r: Layout)
    requires Rect(l, h, w)
    ensures Rect(r, h, w)
    decreases k
  {
    if k == 0 then l else Iterate(Step(l, h, w, depth), h, w, depth, k - 1)
  }

  /** The state `rec` stops at, when that takes at most `fuel` generations. */
  function Settle(s: State, depth: Depth, fuel: nat): (r: Option<State>)
    requires Valid(s)
    ensures r.Some? ==> Valid(r.value) && r.value.height == s.height && r.value.width == s.width
    ensures r.Some? ==> r.value.changes == 0
    decreases fuel
  {
    if fuel == 0 then None
    else
      var seats := Step(s.seats, s.height, s.width, depth);
      var next := s.(seats := seats, changes := Changes(s.seats, seats));
      if next.changes == 0 then Some(next) else Settle(next, depth, fuel - 1)
  }

  /** The occupied count of the final state, if there is one. */
  function Occupancy(final: Option<State>): Option<nat> {
    match final
    case None => None
    case Some(f) => Some(CountOccupied(f.seats))
  }

  /** `rec`: one generation; if it changed nothing, the number of occupied
      seats, otherwise go on from the new state. */
  method Rec(s: State, depth: Depth, fuel: nat) returns (r: Option<nat>)
    requires Valid(s)
    ensures r == Occupancy(Settle(s, depth, fuel))
    decreases fuel
  {
    if fuel == 0 {
      return None;
    }
    var state := Update(s, depth);
    if state.changes == 0 {
      r := Some(CountOccupied(state.seats));
    } else {
      r := Rec(state, depth, fuel - 1);
    }
  }

  /** Part one: neighbours are the adjacent cells. */
  method SolvePart1(s: State, fuel: nat) returns (r: Option<nat>)
    requires Valid(s)
    ensures r == Occupancy(Settle(s, Next, fuel))
  {
    r := Rec(s, Next, fuel);
  }

  /** Part two: neighbours are the first seats in sight. */
  method SolvePart2(s: State, fuel: nat) returns (r: Option<nat>)
    requires Valid(s)
    ensures r == Occupancy(Settle(s, Inf, fuel))
  {
    r := Rec(s, Inf, fuel);
  }

  /** The state `rec` stops at has the input's size, records no change, is a
      fixed point of the generation step, and is reached after some number of
      generations within the fuel. */
  lemma {:induction false} SettleIsFixedPoint(s: State, depth: Depth, fuel: nat)
    requires Valid(s) && Settle(s, depth, fuel).Some?
    ensures var f := Settle(s, depth, fuel).value;
      && Step(f.seats, f.height, f.width, depth) == f.seats
      && exists k :: 1 <= k <= fuel && f.seats == Iterate(s.seats, s.height, s.width, depth, k)
    decreases fuel
  {
    var seats := Step(s.seats, s.height, s.width, depth);
    var next := s.(seats := seats, changes := Changes(s.seats, seats));
    ChangesZero(s.seats, seats);
    if next.changes == 0 {
      assert seats == s.seats;
      assert Iterate(s.seats, s.height, s.width, depth, 1) == seats;
    } else {
      SettleIsFixedPoint(next, depth, fuel - 1);
      var k :| 1 <= k <= fuel - 1 && Settle(next, depth, fuel - 1).value.seats == Iterate(seats, s.height, s.width, depth, k);
      assert Iterate(s.seats, s.height, s.width, depth, k + 1) == Iterate(seats, s.height, s.width, depth, k);
    }
  }

  /** Each of the first `n` generations from `l` changes the layout. */
  ghost predicate Moving(l: Layout, h: nat, w: nat, depth: Depth, n: nat)
    requires Rect(l, h, w)
  {
    forall j :: 0 <= j < n ==> Step(Iterate(l, h, w, depth, j), h, w, depth) != Iterate(l, h, w, depth, j)
  }

  /** `rec` runs out of fuel exactly when each of the first `fuel`
      generations changes the layout. */
  lemma {:induction false} SettleNone(s: State, depth: Depth, fuel: nat)
    requires Valid(s)
    ensures Settle(s, depth, fuel).None? <==> Moving(s.seats, s.height, s.width, depth, fuel)
    decreases fuel
  {
    var h, w := s.height, s.width;
    if fuel == 0 {
      assert Moving(s.seats, h, w, depth, 0);
    } else {
      var seats := Step(s.seats, h, w, depth);
      var next := s.(seats := seats, changes := Changes(s.seats, seats));
      ChangesZero(s.seats, seats);
      MovingShift(s.seats, h, w, depth, fuel);
      if next.changes != 0 {
        assert Settle(s, depth, fuel) == Settle(next, depth, fuel - 1);
        SettleNone(next, depth, fuel - 1);
      }
    }
  }

  /** `n` changing generations from `l` are a first one that changes `l`
      followed by `n - 1` from the next layout. */
  lemma MovingShift(l: Layout, h: nat, w: nat, depth: Depth, n: nat)
    requires Rect(l, h, w) && n > 0
    ensures Moving(l, h, w, depth, n) <==> Step(l, h, w, depth) != l && Moving(Step(l, h, w, depth), h, w, depth, n - 1)
  {
    var l' := Step(l, h, w, depth);
    assert Iterate(l, h, w, depth, 0) == l;
    forall j | 0 <= j < n - 1
      ensures Iterate(l, h, w, depth, j + 1) == Iterate(l', h, w, depth, j)
    {
    }
    if Moving(l, h, w, depth, n) {
      assert Step(Iterate(l, h, w, depth, 0), h, w, depth) != Iterate(l, h, w, depth, 0);
      forall j | 0 <= j < n - 1
        ensures Step(Iterate(l', h, w, depth, j), h, w, depth) != Iterate(l', h, w, depth, j)
      {
        assert Step(Iterate(l, h, w, depth, j + 1), h, w, depth) != Iterate(l, h, w, depth, j + 1);
      }
    }
    if l' != l && Moving(l', h, w, depth, n - 1) {
      forall j | 0 <= j < n
        ensures Step(Iterate(l, h, w, depth, j), h, w, depth) != Iterate(l, h, w, depth, j)
      {
        if j > 0 {
          assert Step(Iterate(l', h, w, depth, j - 1), h, w, depth) != Iterate(l', h, w, depth, j - 1);
        }
      }
    }
  }

  /** More fuel does not change a result that was reached. */
  lemma {:induction false} SettleMoreFuel(s: State, depth: Depth, fuel: nat, more: nat)
    requires Valid(s) && Settle(s, depth, fuel).Some? && fuel <= more
    ensures Settle(s, depth, more) == Settle(s, depth, fuel)
    decreases fuel
  {
    var seats := Step(s.seats, s.height, s.width, depth);
    var next := s.(seats := seats, changes := Changes(s.seats, seats));
    if next.changes != 0 {
      SettleMoreFuel(next, depth, fuel - 1, more - 1);
    }
  }

  /** Across every generation, a cell is floor exactly when it was floor at the start. */
  lemma {:induction false} FloorInvariant(l: Layout, h: nat, w: nat, depth: Depth, k: nat, p: Position)
    requires Rect(l, h, w) && InBounds(h, w, p)
    ensures Iterate(l, h, w, depth, k)[p.y][p.x] == Floor <==> l[p.y][p.x] == Floor
    decreases k
  {
    if k > 0 {
      StepKeepsFloor(l, h, w, depth, p);
      FloorInvariant(Step(l, h, w, depth), h, w, depth, k - 1, p);
    }
  }

  /** A result of `rec` counts the occupied seats of a settled layout that has
      floor exactly where the input has it, and is at most `height * width`. */
  lemma RecResult(s: State, depth: Depth, fuel: nat)
    requires Valid(s) && Settle(s, depth, fuel).Some?
    ensures var f := Settle(s, depth, fuel).value;
      && Occupancy(Settle(s, depth, fuel)) == Some(CountOccupied(f.seats))
      && Settled(f.seats, s.height, s.width, depth)
      && CountOccupied(f.seats) <= s.height * s.width
      && forall y, x :: 0 <= y < s.height && 0 <= x < s.width ==> (f.seats[y][x] == Floor <==> s.seats[y][x] == Floor)
  {
    var f := Settle(s, depth, fuel).value;
    SettleIsFixedPoint(s, depth, fuel);
    FixedPointIsSettled(f.seats, s.height, s.width, depth);
    OccupancyBound(f.seats, s.height, s.width);
    var k :| 1 <= k <= fuel && f.seats == Iterate(s.seats, s.height, s.width, depth, k);
    forall y, x | 0 <= y < s.height && 0 <= x < s.width
      ensures f.seats[y][x] == Floor <==> s.seats[y][x] == Floor
    {
      FloorInvariant(s.seats, s.height, s.width, depth, k, Position(x, y));
    }
  }
}
