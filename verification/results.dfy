/** Failure-carrying values shared by the whole model.

    The source signals every failure by raising `ValueError` (or, for a diagram
    without a root, by an attribute error on `None`); here each failure is a
    value of `Error`, carried by `Result`.
 */
module Results {

  datatype Option<+T> = None | Some(value: T)

  /** One constructor per raise site of the source. */
  datatype Error =
    | UnexpectedChar(ch: char)             // tokenizer: a character it does not know
    | UnexpectedToken(token: string)       // parse: tokens left over after a complete formula
    | UnexpectedInPrimary(found: Option<string>) // a primary position holds neither '(' nor a name
    | Expected(want: string, got: Option<string>) // `_consume(expected)` met another token
    | Unassigned(name: string)             // a variable needed by evaluation has no value
    | EmptyDiagram                         // a diagram without a root was queried
    | UnknownOperation(op: string)         // apply reached a terminal pair with an unknown operator

  datatype Result<+T> = Ok(value: T) | Err(error: Error) {

    predicate IsFailure() {
      Err?
    }

    function PropagateFailure<U>(): Result<U>
      requires Err?
    {
      Err(error)
    }

    function Extract(): T
      requires Ok?
    {
      value
    }
  }
}
