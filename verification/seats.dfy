/**
 * The cell states of the seating layout and their one-character spelling.
 * `FromChar` is `Seat::from`, whose panic on an unknown letter becomes an
 * `InvalidLetter` error; `ToChar` is the `Debug` rendering.
 */
module Seats {
  import opened Wrappers

  datatype Seat = Floor | Empty | Occupied

  /** A cell coordinate: `x` is the column, `y` the row. */
  datatype Position = Position(x: int, y: int)

  /** `Next` looks one step in each direction, `Inf` looks past floor. */
  datatype Depth = Inf | Next

  /** The ways the input can be rejected (both are panics in the Rust code). */
  datatype InputError = InvalidLetter(letter: char) | EmptyInput

  predicate IsSeatChar(c: char) {
    c == '.' || c == 'L' || c == '#'
  }

  function FromChar(c: char): (r: Result<Seat, InputError>)
    ensures r.Ok? <==> IsSeatChar(c)
    ensures r.Err? ==> r.error == InvalidLetter(c)
    ensures r == Ok(Floor) <==> c == '.'
    ensures r == Ok(Empty) <==> c == 'L'
    ensures r == Ok(Occupied) <==> c == '#'
  {
    match c
    case '.' => Ok(Floor)
    case 'L' => Ok(Empty)
    case '#' => Ok(Occupied)
    case _ => Err(InvalidLetter(c))
  }

  /** The letter of a seat: the one `FromChar` reads back as that seat. */
  function ToChar(s: Seat): (c: char)
    ensures IsSeatChar(c)
    ensures FromChar(c) == Ok(s)
  {
    match s
    case Floor => '.'
    case Empty => 'L'
    case Occupied => '#'
  }

  /** Rendering a seat and reading it back gives the seat. */
  lemma SeatRoundTrip(s: Seat)
    ensures FromChar(ToChar(s)) == Ok(s)
  {
  }

  /** Reading a letter and rendering the seat gives the letter back. */
  lemma CharRoundTrip(c: char)
    requires FromChar(c).Ok?
    ensures ToChar(FromChar(c).value) == c
  {
  }

  /** Distinct seats are rendered as distinct letters. */
  lemma ToCharInjective(s: Seat, t: Seat)
    requires ToChar(s) == ToChar(t)
    ensures s == t
  {
  }
}
