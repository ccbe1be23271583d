/**
 * The shared vocabulary of the primitive-type contract (IType): type codes
 * and the outcome of validating a URI literal.
 */
module MetadataType {
  import opened Wrappers

  /**
   * The members of the TypeCode enumeration that the Double and DateTime
   * handlers mention; the enumeration has further members that neither
   * handler names, and no answer of either handler depends on them.
   */
  datatype TypeCode = Byte | SByte | Int16 | Int32 | Int64 | Single | Double | DateTime

  /**
   * What `validate(string $value, ?string &$outValue): bool` leaves behind:
   * the boolean it returns and the value of the by-reference `$outValue`
   * after the call (None standing for PHP null).
   */
  datatype Validation = Validation(ok: bool, outValue: Option<string>)

  /** A failed validation: `false`, with the out-value as the caller passed it. */
  function Rejected(prev: Option<string>): Validation {
    Validation(false, prev)
  }

  /** A successful validation that assigned `v` to the out-value. */
  function Accepted(v: string): Validation {
    Validation(true, Some(v))
  }
}
