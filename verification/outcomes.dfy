/** Failure-compatible wrappers used throughout the chess model. */
module Outcomes {

  /** A value that may be absent; stands for a Java reference that may be null. */
  datatype Option<+T> = None | Some(value: T)

  /** The ways an engine operation can fail.
      The first five are the engine's own, user-facing errors (its
      `ChessException`). `NoPendingPromotion` is a precondition error the
      source raises as an `IllegalStateException`, which the console does
      not catch; it is kept apart because the condition is checked on
      purpose. `Fault` stands for every unchecked exception the source can raise
      by accident: a Board primitive used outside what its callers
      guarantee, a null dereference, an array index off the grid, or a
      missing king. */
  datatype ChessError =
    | NoPieceAtSource
    | WrongPlayersPiece
    | NoPossibleMoves
    | IllegalTarget
    | SelfCheck
    | NoPendingPromotion
    | Fault

  /** Either a value or an error; usable with `:-`. */
  datatype Result<+T> = Ok(value: T) | Err(error: ChessError) {

    predicate IsFailure() {
      Err?
    }

    function PropagateFailure<U>(): Result<U>
      requires Err?
    {
      Err(error)
    }

    function Extract(): T
      requires Ok?
    {
      value
    }
  }
}
