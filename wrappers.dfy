/** Option and Result, used for the source's null pointers, npos results and exceptions. */
module Wrappers {

  datatype Option<+T> = None | Some(value: T)

  datatype Result<+R, +E> = Success(value: R) | Failure(error: E)
}

/** Fixed-width unsigned integers of the source. */
module Ints {

  /** uint8_t: one byte. */
  newtype uint8 = x: int | 0 <= x < 0x100

  /** 2^64: uint64_t and size_t arithmetic is taken modulo this. */
  const TwoTo64: nat := 0x1_0000_0000_0000_0000
}

/** The exceptions the disk image reader throws. */
module DmgErrors {

  datatype DmgError =
    | FileTooSmall            // io_error "File to small to be a DMG"
    | InvalidKolySignature    // io_error "Invalid KOLY block signature"
    | NameKeyNotFound         // io_error "Invalid XML data, partition Name key not found"
    | UnknownPartitionTable   // function_not_implemented_error "Unknown partition table type"
}
