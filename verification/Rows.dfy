/** Portfolio rows as the server delivers them: untyped arrays of cells
    with a fixed column layout. Column 1 holds the company key, column 3 the
    filing status; column 0 is a serial the viewer replaces, and the last
    cell is one the projection drops. */
module Rows {

  /** One cell: a string, a number, or nothing at all (an index past the
      end of the array, or a hole). */
  datatype Cell = Str(s: string) | Int(n: int) | Missing

  type Row = seq<Cell>

  /** `row[i]`, which yields nothing instead of failing past the end. */
  function At(row: Row, i: nat): (c: Cell)
    ensures i < |row| ==> c == row[i]
    ensures i >= |row| ==> c == Missing
  {
    if i < |row| then row[i] else Missing
  }

  /** The company key, cell 1. */
  function Key(row: Row): Cell
  {
    At(row, 1)
  }

  /** The filing status, cell 3. */
  function Status(row: Row): Cell
  {
    At(row, 3)
  }

  /** Strict equality of the status with the string "New". */
  predicate IsNew(row: Row)
  {
    Status(row) == Str("New")
  }

  /** A row is "New" exactly when it has a cell 3 and that cell is the
      string "New"; a row too short to have one is never "New". */
  lemma NewMeaning(row: Row)
    ensures IsNew(row) <==> |row| > 3 && row[3] == Str("New")
  {
  }

  /** JavaScript truthiness of a cell: the empty string, zero and a
      missing value are falsy, every other cell is truthy. */
  predicate Truthy(c: Cell): (b: bool)
    ensures !b <==> c == Str("") || c == Int(0) || c == Missing
  {
    match c
    case Str(s) => s != ""
    case Int(n) => n != 0
    case Missing => false
  }
}
