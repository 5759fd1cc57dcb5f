/** Values shared by every component of the classification service. */
module Types {

  /** Strings are their UTF-8 bytes: field lengths, hashing and the `|` separator are all byte-level. */
  type byte = b: int | 0 <= b < 256
  type Text = seq<byte>

  datatype Option<+T> = None | Some(value: T)

  datatype Status = Completed | Abstain | Failed

  datatype Signal = Signal(id: Text, score: real)

  datatype Classification = Classification(
    classifierId: Text,
    modelRevision: Text,
    tokenizerRevision: Text,
    taxonomyRevision: Text,
    status: Status,
    ranked: seq<Signal>)

  datatype ClassifyError =
    | NotReady
    | ResourceExhausted
    | RequestExpired
    | TokenizerFailed(message: Text)
    | EmbeddingFailed(message: Text)
    | Unavailable(message: Text)

  /** What one classify call yields. */
  datatype Outcome = Ok(result: Classification) | Err(error: ClassifyError)
}
