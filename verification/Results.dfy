/** Results and errors.  An error code is a combination of flags; success is the empty combination. */
module Results {
  datatype Error =
    | InsufficientEntropy | InputTooLarge | RequestTooLarge | ReseedRequired | DrbgFailure | CurveInvalid
    | PrivateKeyInvalid | PublicKeyInvalid | SignatureInvalid | DrbgUninitialized | IncorrectOperation | NotFinished
    | AdditionalInputRequired

  function ErrorIf(e: Error, cond: bool): set<Error> { if cond then {e} else {} }

  datatype Option<T> = None | Some(value: T)

  datatype Result<T> = Ok(value: T) | Failure(errors: set<Error>)
}
