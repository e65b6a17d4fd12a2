/** Option, result and outcome types shared by the model, and the errors the
    event builder and the table layer can raise. */
module Wrappers {

  datatype Option<+T> = None | Some(value: T)

  /** The failures the modelled code raises. */
  datatype Error =
    | InvalidWindow            // build window with high <= low
    | NoReferenceData          // no reference timestamps added yet
    | NoBuildWindows           // hits assigned before windows were built
    | ColumnNotFound(name: string)
    | DuplicateColumn          // a join would produce a column name twice
    | SchemaMismatch           // vertical concatenation of unlike tables
    | EmptyConcat              // concatenation of no tables
    | ZeroDivision             // a ratio over an empty table

  datatype Result<+T> = Ok(value: T) | Err(error: Error)

  datatype Outcome = Pass | Fail(error: Error)
}
