/** The exceptions the engine throws, as values. In the Java code every one
    of them is an unchecked exception that ends the call before any state
    changes (except where a method says otherwise). */
module Errors {

  datatype Error =
    /** An array access outside `[0, length)` (Java's ArrayIndexOutOfBoundsException). */
    | ArrayIndexOutOfRange
    /** A bulk assignment of code pegs whose length is not the hole count (IllegalArgumentException). */
    | WrongPegCount
    /** A hint peg added to a row that already holds one per hole (IndexOutOfBoundsException). */
    | HintOverflow
    /** `setGuess` with `rowIndex >= nbRows` (IndexOutOfBoundsException). */
    | RowIndexOutOfRange
    /** `setGuess` with `holeIndex >= nbHoles` (IndexOutOfBoundsException). */
    | HoleIndexOutOfRange
    /** `validateGuess` after the last row was played (IndexOutOfBoundsException). */
    | NoGuessesLeft

  /** The result of an operation that returns nothing: it finished, or it threw. */
  datatype Outcome = Done | Failed(error: Error)

  /** The result of an operation that returns a value, or throws. */
  datatype Result<T> = Ok(value: T) | Err(error: Error)
}
