/** Values exchanged by every step of the metadata utilities: the `{code, message}`
    result records of the message table, and an optional value. */
module Results {

  datatype Option<+T> = None | Some(value: T)

  /** One entry of the message table: a code and a human-readable text. */
  datatype Result = Result(code: string, message: string)

  /** The single success test the code applies to every result. */
  predicate IsOk(r: Result)
  {
    r.code == "OK"
  }

  /** The entries of the message table that the dispatcher refers to by key.
      The table itself is not part of this model; `Valid` spells out everything
      the model assumes about it. */
  datatype Messages = Messages(
    ok: Result,
    undetermined: Result,
    notImplemented: Result,
    unknownMetadataTarget: Result)
  {
    /** "ok" is the only entry whose code is "OK", and the codes are distinct. */
    predicate Valid()
    {
      && IsOk(ok)
      && !IsOk(undetermined)
      && !IsOk(notImplemented)
      && !IsOk(unknownMetadataTarget)
      && undetermined.code != notImplemented.code
      && undetermined.code != unknownMetadataTarget.code
      && notImplemented.code != unknownMetadataTarget.code
    }
  }
}
