/**
 * The record the engine produces once per reasoning step, and the small
 * value types it is built from.
 */
module Types {

  datatype Option<T> = None | Some(value: T)

  /** The five arithmetic operations the controller recognises, in priority order. */
  datatype Operation = Addition | Subtraction | Multiplication | Division | Percentage

  /**
   * A two-operand calculation. `left` and `right` are the first two numbers
   * read from the previous step's hot tokens; for `Percentage` the right
   * operand is read as a percent of the left one.
   */
  datatype Calculation = Calculation(op: Operation, left: real, right: real)

  /** A computed result: a finite number, or the infinity/NaN of a division by zero. */
  datatype Number = Finite(value: real) | NonFinite

  /**
   * One entry of the reasoning trace. An empty `calculation` or `result`
   * string is `None`; `isComplete` is absent (`None`) on the initial step.
   */
  datatype ReasoningStep = ReasoningStep(
    tokens: seq<string>,
    temperatures: seq<real>,
    hotTokens: seq<string>,
    description: string,
    calculation: Option<Calculation>,
    result: Option<Number>,
    isComplete: Option<bool>)
}
