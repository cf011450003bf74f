/** The cell record the user interface and the rule engine share, and the 81-cell board. */
module Cells {

  /** Marker for an empty cell. */
  const Empty: int := -1

  /**
   * One square of the grid. `value` is Empty or a digit; `smallValues` are the
   * nine pencil marks. The two validity flags are written only by the validator.
   */
  datatype Cell = Cell(
    value: int,
    isWhite: bool,
    isFixed: bool,
    smallValues: seq<bool>,
    isEditing: bool,
    isValidInRow: bool,
    isValidInStraight: bool)

  /** Row-major, 81 cells once built. */
  type Board = seq<Cell>

  const BoardSize: nat := 81

  predicate IsDigit(v: int)
  {
    1 <= v <= 9
  }

  /** A cell value the game can hold: empty or a digit. */
  predicate ValidValue(v: int)
  {
    v == Empty || IsDigit(v)
  }

  /** Every cell of an 81-cell board holds a value the game can hold. */
  predicate WellFormedBoard(board: Board)
  {
    |board| == BoardSize && forall k :: 0 <= k < |board| ==> ValidValue(board[k].value)
  }

  /**
   * The check a saved cell passes before it is loaded: a value that is empty or a
   * digit, and exactly nine pencil marks.
   */
  predicate LoadedCellAccepted(value: int, smallValues: seq<bool>)
  {
    (value == -1 || (value >= 1 && value <= 9)) && |smallValues| == 9
  }
}
