/** The two ways a recommendation request fails in the source, and optional values. */
module Results {

  datatype Error =
    | UnknownTarget   // a `KeyError` on the target user's or item's entry
    | ZeroDivision    // a `ZeroDivisionError` from a division by an empty sum

  datatype Result<T> = Ok(value: T) | Err(error: Error)

  datatype Option<T> = None | Some(value: T)
}
