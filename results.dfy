/**
 * The converter's closed result taxonomy (`marker_result_t`, marker.h:19-28) and
 * its fixed messages (`marker_error_string`, marker.c:61-82).
 */
module Results {
  import opened Options

  datatype ResultCode =
    | Ok
    | NullPointer
    | InvalidSize
    | BufferTooSmall
    | IoFailed
    | MemoryAllocation
    | InvalidInput
    | ParseFailed

  /** The integer each enumerator carries in C. */
  function Code(r: ResultCode): int
  {
    match r
    case Ok => 0
    case NullPointer => -1
    case InvalidSize => -2
    case BufferTooSmall => -3
    case IoFailed => -4
    case MemoryAllocation => -5
    case InvalidInput => -6
    case ParseFailed => -7
  }

  /** The enumerator an integer names, if any. */
  function FromCode(c: int): (r: Option<ResultCode>)
    ensures r.Some? <==> -7 <= c <= 0
    ensures r.Some? ==> Code(r.value) == c
  {
    if c == 0 then Some(Ok)
    else if c == -1 then Some(NullPointer)
    else if c == -2 then Some(InvalidSize)
    else if c == -3 then Some(BufferTooSmall)
    else if c == -4 then Some(IoFailed)
    else if c == -5 then Some(MemoryAllocation)
    else if c == -6 then Some(InvalidInput)
    else if c == -7 then Some(ParseFailed)
    else None
  }

  /** The enumeration is closed: success is 0 and the seven failures are -1 to -7, each named once. */
  lemma CodesRoundTrip(r: ResultCode)
    ensures -7 <= Code(r) <= 0
    ensures FromCode(Code(r)) == Some(r)
    ensures r.Ok? <==> Code(r) == 0
  {
  }

  /** `marker_error_string`: one fixed message per enumerator, "Unknown error" for any other integer. */
  function ErrorString(c: int): string
  {
    match FromCode(c)
    case Some(Ok) => "Success"
    case Some(NullPointer) => "Null pointer argument"
    case Some(InvalidSize) => "Invalid size argument"
    case Some(BufferTooSmall) => "Output buffer too small"
    case Some(IoFailed) => "I/O operation failed"
    case Some(MemoryAllocation) => "Memory allocation failed"
    case Some(InvalidInput) => "Invalid input"
    case Some(ParseFailed) => "Parse failed"
    case None => "Unknown error"
  }

  /**
   * Every result code has its own message, different from every other code's and
   * from the fallback, and exactly the integers outside -7..0 get the fallback.
   */
  lemma ErrorStringDistinct(a: int, b: int)
    ensures ErrorString(a) == "Unknown error" <==> !(-7 <= a <= 0)
    ensures -7 <= a <= 0 && -7 <= b <= 0 && a != b ==> ErrorString(a) != ErrorString(b)
  {
  }

  /** The messages the test suite checks for: "Success" for OK, a "Null pointer" message for -1. */
  lemma ErrorStringExamples()
    ensures ErrorString(Code(Ok)) == "Success"
    ensures ErrorString(Code(NullPointer))[..12] == "Null pointer"
    ensures ErrorString(42) == "Unknown error"
  {
  }
}
