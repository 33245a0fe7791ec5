/** Error codes of the ARISr library (include/lib_arisr_err.h) and the
    Option/Result wrappers the rest of the model returns them through. */
module Errors {

  /** The non-OK values of ARISR_ERR. */
  datatype Error =
    | Generic            // kARISR_ERR_GENERIC: null argument (or, in this model, a truncated frame)
    | NotSameId          // kARISR_ERR_NOT_SAME_ID
    | NotSameAris        // kARISR_ERR_NOT_SAME_ARIS
    | NotSameCrcHeader   // kARISR_ERR_NOT_SAME_CRC_HEADER
    | NotSameCrcData     // kARISR_ERR_NOT_SAME_CRC_DATA
    | InvalidArgument    // kARISR_ERR_INVALID_ARGUMENT
    | InvalidPadding     // kARISR_ERR_INVALID_PADDING

  /** An ARISR_ERR value: kARISR_OK or one of the errors. */
  datatype Status = Ok | Fail(error: Error)

  datatype Option<+T> = None | Some(value: T)

  /** A value, or the error that prevented computing it. */
  datatype Result<+T> = Success(value: T) | Failure(error: Error)

  /** The numeric ARISR_ERR code of a status. */
  function Code(s: Status): (c: nat)
    ensures c == 0 <==> s == Ok
    ensures c <= 7
  {
    match s
    case Ok => 0
    case Fail(Generic) => 1
    case Fail(NotSameId) => 2
    case Fail(NotSameAris) => 3
    case Fail(NotSameCrcHeader) => 4
    case Fail(NotSameCrcData) => 5
    case Fail(InvalidArgument) => 6
    case Fail(InvalidPadding) => 7
  }

  /** Distinct statuses have distinct codes, so a caller can tell them apart by number. */
  lemma CodeInjective(s: Status, t: Status)
    requires Code(s) == Code(t)
    ensures s == t
  {
  }
}
