/** Bytes of binary data and of encoded text. */
module Bytes {

  /** A byte of binary data or of encoded text (`uint8_t`). */
  type byte = bv8
}
