/** Failure-compatible result type used for every operation that Python lets raise. */
module Wrappers {

  datatype Result<+T, +E> = Success(value: T) | Failure(error: E) {

    predicate IsFailure() {
      Failure?
    }

    function PropagateFailure<U>(): Result<U, E>
      requires Failure?
    {
      Failure(error)
    }

    function Extract(): T
      requires Success?
    {
      value
    }
  }
}

/** The exceptions that reach a caller of the Crypto operations. */
module Errors {

  datatype Error =
    | NonAsciiHex      // binascii.unhexlify: the hex text holds a non-ASCII character
    | OddLengthHex     // binascii.unhexlify: the hex text has an odd number of characters
    | NonHexDigit      // binascii.unhexlify: a character is not a hexadecimal digit
    | BadIvLength      // AES.new in CBC mode: the IV is not one block long
    | BadKeyLength     // AES.new: the key is not 16, 24 or 32 bytes long
    | UnalignedInput   // CBC encrypt/decrypt: the data is not a whole number of blocks
    | UnicodeDecode    // bytes.decode('utf-8') of the decrypted bytes
}
