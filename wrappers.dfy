/** Optional values and results with an error, used wherever the script either
    yields a value or stops with an exception. */
module Wrappers {

  datatype Option<+T> = None | Some(value: T)

  datatype Result<+T, +E> = Ok(value: T) | Err(error: E)
}

/** The exceptions that stop the processing of one bottle file. */
module ParseErrors {

  datatype ParseError =
      /** `re.split(...)[1]` on a header line that has no separator: IndexError. */
    | MissingSegment(line: string)
      /** The start-time text was rejected by the timestamp parser. */
    | BadTimestamp(text: string)
      /** `data_dict[i]` for a position that has no column: KeyError. */
    | MissingColumn(position: int)
      /** `filename.index('.')` on a name without a dot: ValueError. */
    | NoDot(name: string)
      /** The column lists differ in length, which the data-frame
          constructor rejects: ValueError. */
    | UnequalColumns
}
