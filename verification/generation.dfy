/**
 * `update`: one synchronous generation. Every cell of the new layout is the
 * rule applied to the OLD layout, and `changes` is the number of cells whose
 * value differs between the two.
 */
module Generation {
  import opened Seats
  import opened Grid
  import opened Rules

  /** The next generation as a function of the current one. */
  function Step(l: Layout, h: nat, w: nat, depth: Depth): (next: Layout)
    requires Rect(l, h, w)
    ensures Rect(next, h, w)
  {
    seq(h, y requires 0 <= y < h => seq(w, x requires 0 <= x < w => NextCell(l, h, w, Position(x, y), depth)))
  }

  /** Same number of rows, and rows of the same lengths. */
  predicate SameShape(a: Layout, b: Layout) {
    |a| == |b| && forall y :: 0 <= y < |a| ==> |a[y]| == |b[y]|
  }

  /** Cells in which two rows differ (the inner fold of `update`). */
  function RowChanges(a: seq<Seat>, b: seq<Seat>): (n: nat)
    requires |a| == |b|
    ensures n <= |a|
  {
    if a == [] then 0
    else RowChanges(a[..|a| - 1], b[..|a| - 1]) + (if a[|a| - 1] != b[|a| - 1] then 1 else 0)
  }

  /** Cells in which two layouts differ (the outer fold of `update`). */
  function Changes(a: Layout, b: Layout): (n: nat)
    requires SameShape(a, b)
  {
    if a == [] then 0
    else Changes(a[..|a| - 1], b[..|a| - 1]) + RowChanges(a[|a| - 1], b[|a| - 1])
  }

  lemma {:induction false} RowChangesZero(a: seq<Seat>, b: seq<Seat>)
    requires |a| == |b|
    ensures RowChanges(a, b) == 0 <==> a == b
  {
    if a != [] {
      var n := |a|;
      assert a == a[..n - 1] + [a[n - 1]] && b == b[..n - 1] + [b[n - 1]];
      RowChangesZero(a[..n - 1], b[..n - 1]);
    }
  }

  /** No cell changed exactly when the layouts are equal. */
  lemma {:induction false} ChangesZero(a: Layout, b: Layout)
    requires SameShape(a, b)
    ensures Changes(a, b) == 0 <==> a == b
  {
    if a != [] {
      var n := |a|;
      ChangesZero(a[..n - 1], b[..n - 1]);
      RowChangesZero(a[n - 1], b[n - 1]);
      assert a == a[..n - 1] + [a[n - 1]] && b == b[..n - 1] + [b[n - 1]];
    }
  }

  /** The positions of row `y` at which two rows differ. */
  ghost function RowDiffCells(a: seq<Seat>, b: seq<Seat>, y: int): set<Position>
    requires |a| == |b|
  {
    set x | 0 <= x < |a| && a[x] != b[x] :: Position(x, y)
  }

  /** The positions at which two layouts differ. */
  ghost function DiffCells(a: Layout, b: Layout): set<Position>
    requires SameShape(a, b)
  {
    set y, x | 0 <= y < |a| && 0 <= x < |a[y]| && a[y][x] != b[y][x] :: Position(x, y)
  }

  lemma {:induction false} RowChangesIsCardinality(a: seq<Seat>, b: seq<Seat>, y: int)
    requires |a| == |b|
    ensures RowChanges(a, b) == |RowDiffCells(a, b, y)|
  {
    if a != [] {
      var n := |a|;
      RowChangesIsCardinality(a[..n - 1], b[..n - 1], y);
      var last := if a[n - 1] != b[n - 1] then {Position(n - 1, y)} else {};
      assert RowDiffCells(a, b, y) == RowDiffCells(a[..n - 1], b[..n - 1], y) + last;
      assert RowDiffCells(a[..n - 1], b[..n - 1], y) !! last;
    }
  }

  /** The change count is the number of positions whose value differs. */
  lemma {:induction false} ChangesIsCardinality(a: Layout, b: Layout)
    requires SameShape(a, b)
    ensures Changes(a, b) == |DiffCells(a, b)|
  {
    if a != [] {
      var n := |a|;
      ChangesIsCardinality(a[..n - 1], b[..n - 1]);
      RowChangesIsCardinality(a[n - 1], b[n - 1], n - 1);
      var earlier := DiffCells(a[..n - 1], b[..n - 1]);
      var last := RowDiffCells(a[n - 1], b[n - 1], n - 1);
      assert DiffCells(a, b) == earlier + last;
      assert earlier !! last;
    }
  }

  /** A cell is floor after a generation exactly when it was floor before. */
  lemma StepKeepsFloor(l: Layout, h: nat, w: nat, depth: Depth, p: Position)
    requires Rect(l, h, w) && InBounds(h, w, p)
    ensures Step(l, h, w, depth)[p.y][p.x] == Floor <==> l[p.y][p.x] == Floor
  {
    FloorStaysFloor(l, h, w, p, depth);
  }

  /** The first generation from a layout without occupied seats takes every
      seat, in both modes. */
  lemma FirstGenerationFills(l: Layout, h: nat, w: nat, depth: Depth)
    requires Rect(l, h, w) && NoneOccupied(l, h, w)
    ensures forall y, x :: 0 <= y < h && 0 <= x < w ==>
      Step(l, h, w, depth)[y][x] == if l[y][x] == Floor then Floor else Occupied
  {
    forall y, x | 0 <= y < h && 0 <= x < w
      ensures Step(l, h, w, depth)[y][x] == if l[y][x] == Floor then Floor else Occupied
    {
      NoneOccupiedFills(l, h, w, Position(x, y), depth);
    }
  }

  /** No empty seat sees no occupied seat, and no occupied seat sees the mode's
      threshold of them. */
  ghost predicate Settled(l: Layout, h: nat, w: nat, depth: Depth)
    requires Rect(l, h, w)
  {
    forall y, x :: 0 <= y < h && 0 <= x < w ==>
      && !(l[y][x] == Empty && NeighbourCount(l, h, w, Position(x, y), depth) == 0)
      && !(l[y][x] == Occupied && NeighbourCount(l, h, w, Position(x, y), depth) >= Threshold(depth))
  }

  /** A layout is a fixed point of the generation step exactly when it is settled. */
  lemma FixedPointIsSettled(l: Layout, h: nat, w: nat, depth: Depth)
    requires Rect(l, h, w)
    ensures Step(l, h, w, depth) == l <==> Settled(l, h, w, depth)
  {
    var next := Step(l, h, w, depth);
    if next == l {
      forall y, x | 0 <= y < h && 0 <= x < w
        ensures !(l[y][x] == Empty && NeighbourCount(l, h, w, Position(x, y), depth) == 0)
        ensures !(l[y][x] == Occupied && NeighbourCount(l, h, w, Position(x, y), depth) >= Threshold(depth))
      {
        assert next[y][x] == NextCell(l, h, w, Position(x, y), depth);
      }
    }
    if Settled(l, h, w, depth) {
      forall y | 0 <= y < h ensures next[y] == l[y] {
        forall x | 0 <= x < w ensures next[y][x] == l[y][x] {
          assert next[y][x] == NextCell(l, h, w, Position(x, y), depth);
        }
      }
    }
  }

  /** Extending two rows' common prefix by one cell adds that cell's change. */
  lemma RowChangesPrefix(a: seq<Seat>, b: seq<Seat>, x: nat)
    requires |a| == |b| && x < |a|
    ensures RowChanges(a[..x + 1], b[..x + 1]) == RowChanges(a[..x], b[..x]) + (if a[x] != b[x] then 1 else 0)
  {
    assert a[..x + 1][..x] == a[..x] && b[..x + 1][..x] == b[..x];
  }

  /** The inner loop of `update` for row `y`: overwrite each cell of the
      copied row with the rule applied to the input state, counting changes. */
  method UpdateRow(s: State, y: nat, depth: Depth) returns (row: seq<Seat>, rowChanges: nat)
    requires Valid(s) && y < s.height
    ensures row == Step(s.seats, s.height, s.width, depth)[y]
    ensures rowChanges == RowChanges(s.seats[y], row)
  {
    ghost var next := Step(s.seats, s.height, s.width, depth)[y];
    row := s.seats[y];
    rowChanges := 0;
    var x := 0;
    while x < s.width
      invariant 0 <= x <= s.width && |row| == s.width
      invariant forall i :: 0 <= i < x ==> row[i] == next[i]
      invariant forall i :: x <= i < s.width ==> row[i] == s.seats[y][i]
      invariant rowChanges == RowChanges(s.seats[y][..x], row[..x])
    {
      var seat := NextSeat(s, Position(x, y), depth);
      var change := if seat != row[x] then 1 else 0;
      ghost var before := row;
      row := row[x := seat];
      assert row[..x] == before[..x];
      RowChangesPrefix(s.seats[y], row, x);
      rowChanges := rowChanges + change;
      x := x + 1;
    }
    assert row == next;
    assert row[..s.width] == row && s.seats[y][..s.width] == s.seats[y];
  }

  /** Extending two layouts' common prefix by one row adds that row's changes. */
  lemma ChangesPrefix(a: Layout, b: Layout, y: nat)
    requires SameShape(a, b) && y < |a|
    ensures SameShape(a[..y + 1], b[..y + 1]) && SameShape(a[..y], b[..y])
    ensures Changes(a[..y + 1], b[..y + 1]) == Changes(a[..y], b[..y]) + RowChanges(a[y], b[y])
  {
    assert a[..y + 1][..y] == a[..y] && b[..y + 1][..y] == b[..y];
  }

  /** `update`: copy the layout, overwrite every cell with the rule applied to
      the unchanged input state, and count the cells that changed. The size is
      kept, so the result describes the same `height` by `width` layout. */
  method Update(s: State, depth: Depth) returns (r: State)
    requires Valid(s)
    ensures Valid(r) && r.height == s.height && r.width == s.width
    ensures r.seats == Step(s.seats, s.height, s.width, depth)
    ensures r.changes == Changes(s.seats, r.seats)
    ensures r.changes == 0 <==> r.seats == s.seats
  {
    var seats := s.seats;
    ghost var next := Step(s.seats, s.height, s.width, depth);
    var changes := 0;
    var y := 0;
    while y < s.height
      invariant 0 <= y <= s.height && |seats| == s.height
      invariant forall k :: 0 <= k < y ==> seats[k] == next[k]
      invariant forall k :: y <= k < s.height ==> seats[k] == s.seats[k]
      invariant SameShape(s.seats, seats)
      invariant changes == Changes(s.seats[..y], seats[..y])
    {
      var row, rowChanges := UpdateRow(s, y, depth);
      ghost var before := seats;
      seats := seats[y := row];
      assert seats[..y] == before[..y];
      ChangesPrefix(s.seats, seats, y);
      changes := rowChanges + changes;
      y := y + 1;
    }
    assert seats == next;
    assert seats[..s.height] == seats && s.seats[..s.height] == s.seats;
    ChangesZero(s.seats, seats);
    r := s.(seats := seats, changes := changes);
  }
}
