/** Values the naming functions receive, and the errors they raise.
    Python passes loosely typed arguments; the core only distinguishes
    `None`, a string, an integer and anything else. */
module Values {

  /** A Python argument as seen by the naming functions. A `bool` is an
      integer here, as it is in Python. */
  datatype Value = NoneValue | Str(s: string) | Int(n: int) | OtherObject

  /** `isinstance(v, (string_types, type(None)))` */
  predicate IsStrOrNone(v: Value) {
    v.NoneValue? || v.Str?
  }

  /** The Python exception class an error surfaces as. */
  datatype ExceptionClass = ValueError | TypeError | IOError | KeyError

  /** Every way the core fails. */
  datatype Error =
    | NotStringOrNone                                  // _check_types
    | ForbiddenCharacter(key: string, value: string)   // _check_key_val
    | UnformattableRun                                 // '{:02}'.format on a non-number
    | NoParameterGiven                                 // the guard of make_bids_filename
    | MissingSource                                    // copyfile_brainvision: src does not exist
    | ExtensionMismatch(srcExt: string, destExt: string)
    | UnsupportedExtension(ext: string)
    | MissingKey(key: string)                          // dict.pop on an absent key
  {
    function Class(): ExceptionClass {
      match this
      case UnformattableRun => TypeError
      case MissingSource => IOError
      case MissingKey(_) => KeyError
      case _ => ValueError
    }
  }

  datatype Result<+T> = Ok(value: T) | Err(error: Error)
}
