/** Result types shared by the symbol table: the C++ code reports these conditions by
    throwing (`std::invalid_argument`, `std::logic_error`) or by returning a default value. */
module Common {

  datatype Option<T> = None | Some(value: T)

  /** The three error kinds the table reports. */
  datatype Error =
    | InvalidArgument  // a null key, or a rank outside [0, size())
    | EmptyTable       // min, max, ceiling, delete-min and delete-max of an empty table
    | NotFound         // no stored key qualifies as floor or ceiling, or `get` of an absent key

  datatype Result<T> = Ok(value: T) | Err(error: Error)

  datatype Outcome = Pass | Fail(error: Error)
}
