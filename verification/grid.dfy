/**
 * The simulation state: the layout (rows of seats, indexed `seats[y][x]`),
 * its height and width, and the number of cells the last generation changed.
 */
module Grid {
  import opened Wrappers
  import opened Seats

  type Layout = seq<seq<Seat>>

  datatype State = State(seats: Layout, height: nat, width: nat, changes: nat)

  /** `l` has `h` rows of `w` seats each. */
  predicate Rect(l: Layout, h: int, w: int) {
    |l| == h && forall y :: 0 <= y < |l| ==> |l[y]| == w
  }

  /** The recorded height and width describe the layout. */
  predicate Valid(s: State) {
    Rect(s.seats, s.height, s.width)
  }

  /** `State::new`: the height is the number of rows and the width the length
      of the first row; reading the first row of no rows is an error. */
  function NewState(seats: Layout): (r: Result<State, InputError>)
    ensures r.Err? <==> seats == []
    ensures r.Err? ==> r.error == EmptyInput
    ensures r.Ok? ==> r.value.seats == seats && r.value.changes == 0
    ensures r.Ok? ==> r.value.height == |seats| >= 1 && r.value.width == |seats[0]|
    ensures r.Ok? ==> (Valid(r.value) <==> forall y :: 0 <= y < |seats| ==> |seats[y]| == |seats[0]|)
  {
    if seats == [] then Err(EmptyInput) else Ok(State(seats, |seats|, |seats[0]|, 0))
  }

  /** Occupied seats in one row (the inner fold of `count_occupied`). */
  function RowOccupied(row: seq<Seat>): (n: nat)
    ensures n <= |row|
  {
    if row == [] then 0 else RowOccupied(row[..|row| - 1]) + (if row[|row| - 1] == Occupied then 1 else 0)
  }

  /** Occupied seats in the whole layout (`count_occupied`). */
  function CountOccupied(l: Layout): (n: nat)
    ensures n <= |Flatten(l)|
  {
    if l == [] then 0 else CountOccupied(l[..|l| - 1]) + RowOccupied(l[|l| - 1])
  }

  /** The cells in reading order. */
  function Flatten(l: Layout): seq<Seat> {
    if l == [] then [] else Flatten(l[..|l| - 1]) + l[|l| - 1]
  }

  lemma {:induction false} FlattenSize(l: Layout, h: nat, w: nat)
    requires Rect(l, h, w)
    ensures |Flatten(l)| == h * w
  {
    if l != [] {
      var init := l[..|l| - 1];
      assert Rect(init, h - 1, w);
      FlattenSize(init, h - 1, w);
      assert |Flatten(l)| == |Flatten(init)| + |l[|l| - 1]|;
      assert (h - 1) * w + w == h * w;
    }
  }

  /** The count of a row is the multiplicity of `Occupied` among its seats. */
  lemma {:induction false} RowOccupiedIsMultiplicity(row: seq<Seat>)
    ensures RowOccupied(row) == multiset(row)[Occupied]
  {
    if row != [] {
      var init := row[..|row| - 1];
      RowOccupiedIsMultiplicity(init);
      assert row == init + [row[|row| - 1]];
    }
  }

  /** The occupancy count is the multiplicity of `Occupied` among all cells. */
  lemma {:induction false} CountOccupiedIsMultiplicity(l: Layout)
    ensures CountOccupied(l) == multiset(Flatten(l))[Occupied]
  {
    if l != [] {
      CountOccupiedIsMultiplicity(l[..|l| - 1]);
      RowOccupiedIsMultiplicity(l[|l| - 1]);
    }
  }

  /** At most every cell of an `h` by `w` layout is occupied. */
  lemma OccupancyBound(l: Layout, h: nat, w: nat)
    requires Rect(l, h, w)
    ensures CountOccupied(l) <= h * w
  {
    FlattenSize(l, h, w);
  }
}
