/**
 Types every component shares.
 */
module Common {
  datatype FileId = FileId(raw: int)

  datatype Option<+T> = None | Some(value: T)

  datatype Result<+T, +E> = Ok(value: T) | Err(error: E)

  function Min(a: nat, b: nat): nat { if a <= b then a else b }
}
