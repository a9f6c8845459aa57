/**
  What the tool reports.  A fatal error is printed and ends the process with a
  non-zero status; a warning is printed to standard error and processing goes on.
*/
module Diagnostics {

  /** Which bit list a message is about ("address" or "data" in the messages). */
  datatype BitKind = Address | Data

  datatype Fatal =
    /** "invalid <kind> bit index <index> (must be between 0 and <count - 1>)" */
    | InvalidBitIndex(kind: BitKind, index: int, count: nat)
    /** "expected <expected> <kind> bits, but <found> were specified" */
    | BitCountMismatch(kind: BitKind, expected: nat, found: nat)
    /** "address bus width must be between 1 and 32 bits" */
    | AddressBusWidth

  datatype Warning =
    /** "non-power-of-two input size (<size> bytes)" */
    | NonPowerOfTwoSize(size: nat)
    /** "input size is not a multiple of <bytesPerWord> bytes" */
    | SizeNotMultiple(bytesPerWord: nat)
    /** "<kind> bit index <index> specified multiple times" */
    | RepeatedBitIndex(kind: BitKind, index: int)
}
