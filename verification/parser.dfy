/**
 * `gen`: the input text is split into lines, each line is trimmed and read
 * letter by letter with `FromChar`, and the rows become a `State`. The first
 * unknown letter in reading order is reported; no lines at all is
 * `EmptyInput`. Rows of different lengths are not rejected.
 */
module Parser {
  import opened Wrappers
  import opened Seats
  import opened Text
  import opened Grid

  /** The letters of a row of seats. */
  function RenderRow(row: seq<Seat>): (line: string)
    ensures |line| == |row|
    ensures forall i :: 0 <= i < |row| ==> line[i] == ToChar(row[i])
  {
    if row == [] then [] else [ToChar(row[0])] + RenderRow(row[1..])
  }

  /** Every character of the line is a layout letter. */
  predicate SeatLetters(line: string) {
    forall i :: 0 <= i < |line| ==> IsSeatChar(line[i])
  }

  /** One (trimmed) line read letter by letter. */
  function ParseRow(line: string): (r: Result<seq<Seat>, InputError>)
    ensures r.Ok? <==> SeatLetters(line)
    ensures r.Ok? ==> RenderRow(r.value) == line
    ensures r.Err? ==> exists i :: 0 <= i < |line| && r.error == InvalidLetter(line[i]) && FirstBadLetter(line, i)
  {
    if line == [] then Ok([])
    else
      match FromChar(line[0])
      case Err(e) =>
        assert FirstBadLetter(line, 0);
        Err(e)
      case Ok(seat) =>
        match ParseRow(line[1..])
        case Err(e) =>
          FirstBadLetterShift(line);
          Err(e)
        case Ok(rest) => Ok([seat] + rest)
  }

  /** `line[i]` is the first character of the line that is not a layout letter. */
  predicate FirstBadLetter(line: string, i: int)
    requires 0 <= i < |line|
  {
    !IsSeatChar(line[i]) && SeatLetters(line[..i])
  }

  lemma FirstBadLetterShift(line: string)
    requires line != [] && IsSeatChar(line[0])
    ensures forall i :: 0 <= i < |line| - 1 && FirstBadLetter(line[1..], i) ==> FirstBadLetter(line, i + 1)
  {
    forall i | 0 <= i < |line| - 1 && FirstBadLetter(line[1..], i) ensures FirstBadLetter(line, i + 1) {
      assert line[..i + 1] == [line[0]] + line[1..][..i];
    }
  }

  /** The closure `gen` maps over the lines: trim, then read letter by letter. */
  function ReadRow(line: string): (r: Result<seq<Seat>, InputError>)
    ensures r.Ok? <==> SeatLetters(Trim(line))
    ensures r.Ok? ==> RenderRow(r.value) == Trim(line)
  {
    ParseRow(Trim(line))
  }

  /** The lines, each trimmed and read in turn; the first failure wins. */
  function ParseRows(lines: seq<string>): (r: Result<Layout, InputError>)
    ensures r.Ok? ==> |r.value| == |lines|
    ensures r.Ok? ==> forall k :: 0 <= k < |lines| ==> ReadRow(lines[k]) == Ok(r.value[k])
    ensures r.Err? ==> exists k :: 0 <= k < |lines| && ReadRow(lines[k]) == Err(r.error) && FirstBadLine(lines, k)
  {
    if lines == [] then Ok([])
    else
      match ReadRow(lines[0])
      case Err(e) =>
        assert FirstBadLine(lines, 0);
        Err(e)
      case Ok(row) =>
        match ParseRows(lines[1..])
        case Err(e) =>
          assert forall k :: 0 <= k < |lines| - 1 ==> lines[1..][k] == lines[k + 1];
          assert forall k :: 0 <= k < |lines| - 1 && FirstBadLine(lines[1..], k) ==> FirstBadLine(lines, k + 1);
          Err(e)
        case Ok(rest) => Ok([row] + rest)
  }

  /** `lines[k]` is the first line that does not read as a row. */
  predicate FirstBadLine(lines: seq<string>, k: int)
    requires 0 <= k < |lines|
  {
    ReadRow(lines[k]).Err? && forall j :: 0 <= j < k ==> ReadRow(lines[j]).Ok?
  }

  /** `gen`: parse the text and build the initial state. */
  function Gen(input: string): (r: Result<State, InputError>)
    ensures r == Err(EmptyInput) <==> input == []
    ensures r.Ok? ==> |r.value.seats| == r.value.height == |Lines(input)| && r.value.changes == 0
    ensures r.Ok? ==> forall k :: 0 <= k < |Lines(input)| ==> RenderRow(r.value.seats[k]) == Trim(Lines(input)[k])
    ensures r.Ok? ==> r.value.width == |Trim(Lines(input)[0])|
    ensures r.Err? && input != [] ==>
      exists k :: 0 <= k < |Lines(input)| && FirstBadLine(Lines(input), k) && ReadRow(Lines(input)[k]) == Err(r.error)
  {
    match ParseRows(Lines(input))
    case Err(e) => Err(e)
    case Ok(rows) => NewState(rows)
  }

  /** Each row's letters. */
  function RenderRows(l: Layout): seq<string> {
    seq(|l|, k requires 0 <= k < |l| => RenderRow(l[k]))
  }

  /** A layout written one row per line, rows separated by line feeds. */
  function Render(l: Layout): string {
    Join(RenderRows(l))
  }

  /** Reading a rendered row gives the row back. */
  lemma {:induction false} ParseRenderRow(row: seq<Seat>)
    ensures ParseRow(RenderRow(row)) == Ok(row)
  {
    if row != [] {
      ParseRenderRow(row[1..]);
      SeatRoundTrip(row[0]);
      assert RenderRow(row)[1..] == RenderRow(row[1..]);
      assert row == [row[0]] + row[1..];
    }
  }

  /** When every line reads as the corresponding row, the lines read as the rows. */
  lemma ParseRowsAll(lines: seq<string>, rows: Layout)
    requires |lines| == |rows|
    requires forall k :: 0 <= k < |lines| ==> ReadRow(lines[k]) == Ok(rows[k])
    ensures ParseRows(lines) == Ok(rows)
  {
    var r := ParseRows(lines);
    assert r.Ok?;
    assert r.value == rows;
  }

  /** A rendered row has no whitespace, line feed or final carriage return. */
  lemma RenderedLine(row: seq<Seat>)
    ensures PlainLine(RenderRow(row)) && Trim(RenderRow(row)) == RenderRow(row)
  {
    var line := RenderRow(row);
    assert forall i :: 0 <= i < |line| ==> IsSeatChar(line[i]);
    TrimNoWhitespace(line);
  }

  /** Parsing the rendering of a non-empty rectangular layout with non-empty
      rows gives back the layout as a fresh state. */
  lemma GenRender(l: Layout, h: nat, w: nat)
    requires Rect(l, h, w) && h >= 1 && w >= 1
    ensures Gen(Render(l)) == Ok(State(l, h, w, 0))
  {
    var lines := RenderRows(l);
    forall k | 0 <= k < |lines| ensures PlainLine(lines[k]) && ReadRow(lines[k]) == Ok(l[k]) {
      RenderedLine(l[k]);
      ParseRenderRow(l[k]);
    }
    LinesOfJoin(lines);
    ParseRowsAll(lines, l);
  }
}
