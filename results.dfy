/** Option and Result values, and the errors the system throws (src/errors.js). */
module Results {

  datatype Option<+T> = None | Some(value: T)

  /** The error catalogue: one constructor per entry of the frozen ERRORS table. */
  datatype ErrorKind =
    | Args
    | InvalidInputFile
    | InvalidInputFileFormat
    | MissingInputId
    | InvalidInputId
    | MissingInputSlots
    | InvalidInputSlots
    | EmptyInputSlots
    | DuplicateInputId
    | InvalidSlotIdentifier
    | InvalidInterviewersPerSlot
    | InvalidMaxInterviewsPerInterviewer
    | NoAssignmentAvailable
    | Network
    | InvalidDoodleDataFormat
    | UnmatchingDoodles
    | InvalidInputType

  /** The numeric code each error carries. */
  function Code(e: ErrorKind): (c: int)
    ensures 1 <= c <= 17
  {
    match e
    case Args => 1
    case InvalidInputFile => 2
    case InvalidInputFileFormat => 3
    case MissingInputId => 4
    case InvalidInputId => 5
    case MissingInputSlots => 6
    case InvalidInputSlots => 7
    case EmptyInputSlots => 8
    case DuplicateInputId => 9
    case InvalidSlotIdentifier => 10
    case InvalidInterviewersPerSlot => 11
    case InvalidMaxInterviewsPerInterviewer => 12
    case NoAssignmentAvailable => 13
    case Network => 14
    case InvalidDoodleDataFormat => 15
    case UnmatchingDoodles => 16
    case InvalidInputType => 17
  }

  /** What a JavaScript `throw` carries: an `{err, msg}` object with a catalogue entry, an
      `{err}` object without a message, or a plain `Error` with a message (a language-level
      TypeError included). */
  datatype Thrown =
    | Coded(kind: ErrorKind, msg: string)
    | CodeOnly(kind: ErrorKind)
    | Plain(message: string)

  datatype Result<+T> = Ok(value: T) | Err(error: Thrown)
}
