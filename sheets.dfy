/**
 * The spreadsheet the waitlist script uses as its database: an ordered table
 * of rows, seven text cells wide, addressed by 1-based sheet row and column
 * numbers. Only the operations the script calls are modelled: the last row,
 * appending a row, reading a cell and overwriting one cell.
 */
module Sheets {

  /**
   * Column indexes of a row, as the script's configuration names them. They
   * are 0-based; the sheet's own column number is always the index plus one.
   */
  const TIMESTAMP := 0
  const EMAIL := 1
  const PROJECTS := 2
  const PAGE := 3
  const DATE_ADDED := 4
  const WELCOME_SENT := 5
  const BETA_SENT := 6

  /** Number of columns the script reads and writes. */
  const WIDTH := 7

  /** One sheet row: every row the script appends has exactly seven cells. */
  type Row = r: seq<string> | |r| == WIDTH witness ["", "", "", "", "", "", ""]

  /** The header row written when the sheet is empty. */
  const HEADER: Row := ["Timestamp", "Email", "Projects", "Page", "Date Added", "Welcome Email Sent", "Beta Email Sent"]

  /** The value of a flag cell once the corresponding email has gone out. */
  const YES := "Yes"
  /** The value of a flag cell in a freshly appended row. */
  const NO := "No"

  /**
   * The value a range read yields for sheet position (`row`, `column`), both
   * 1-based. A position below the last row reads as the empty string, as a
   * range that reaches past the data does.
   */
  function Cell(rows: seq<Row>, row: nat, column: nat): (v: string)
    requires 1 <= row && 1 <= column <= WIDTH
    ensures row > |rows| ==> v == ""
  {
    if row <= |rows| then rows[row - 1][column - 1] else ""
  }

  /** `rows` with the cell at sheet position (`row`, `column`) set to `v`. */
  function SetCell(rows: seq<Row>, row: nat, column: nat, v: string): (r: seq<Row>)
    requires 1 <= row <= |rows| && 1 <= column <= WIDTH
    ensures |r| == |rows|
  {
    rows[row - 1 := rows[row - 1][column - 1 := v]]
  }

  /** The active sheet, changed in place by the script. */
  class Sheet {
    var rows: seq<Row>

    constructor (rows: seq<Row>)
      ensures this.rows == rows
    {
      this.rows := rows;
    }

    /**
     * The number of the last row holding content: 0 exactly for an empty
     * sheet, the row read there is the row appended last, and every position
     * below it reads empty.
     */
    function LastRow(): (n: nat)
      reads this
      ensures n == 0 <==> rows == []
      ensures n >= 1 ==> forall column :: 1 <= column <= WIDTH ==> Cell(rows, n, column) == rows[|rows| - 1][column - 1]
      ensures forall row, column :: n < row && 1 <= column <= WIDTH ==> Cell(rows, row, column) == ""
    {
      |rows|
    }

    /** Adds `r` below the last row. */
    method AppendRow(r: Row)
      modifies this
      ensures rows == old(rows) + [r]
    {
      rows := rows + [r];
    }

    /** Overwrites the single cell at sheet position (`row`, `column`). */
    method SetValue(row: nat, column: nat, v: string)
      requires 1 <= row <= |rows| && 1 <= column <= WIDTH
      modifies this
      ensures rows == SetCell(old(rows), row, column, v)
    {
      rows := SetCell(rows, row, column, v);
    }
  }
}
