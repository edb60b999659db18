/** The ways one extraction can stop. Each `exit(1)` of the extractor and
    each exception that Python would raise on the way becomes an error kind;
    the two ASCII decodes of the boot record (eltorito.py:33 and 35) share
    one, since both refuse the same sector. */
module Failures {

  datatype Error =
    | TruncatedBootRecord       // struct.error: sector 17 holds fewer than 75 bytes
    | NonAsciiBootRecord        // UnicodeDecodeError: the identifier or the boot system id is not ASCII
    | NotBootable               // identifier is not CD001 or the boot system is not El Torito
    | TruncatedValidationEntry  // struct.error: the catalog holds fewer than 32 bytes
    | NonAsciiManufacturer      // UnicodeDecodeError: the manufacturer id is not ASCII
    | InvalidValidationEntry    // header byte or key bytes of the validation entry are wrong
    | TruncatedInitialEntry     // struct.error: the catalog holds fewer than 45 bytes
    | NotBootableEntry          // boot indicator of the initial entry is not 0x88
    | TruncatedPartitionEntry   // struct.error: the embedded disk's first sector is under 462 bytes

  datatype Result<+T> = Ok(value: T) | Err(error: Error)
}
