/** Small result types shared by every component. */
module Wrappers {
  datatype Option<+T> = None | Some(value: T)

  /** The machine-readable codes of internal/errors; message texts are not modelled. */
  datatype ErrorCode = InvalidInput | NotFound | Conflict | Forbidden | Unauthorized | Internal

  datatype Result<+T> = Ok(value: T) | Err(code: ErrorCode)

  /** An error return without a value: nil, or an error carrying a code. */
  datatype Reply = Nil | Failed(code: ErrorCode)

  /** One line of the audit log. `code` is None when the event carries no error code. */
  datatype AuditEvent = AuditEvent(source: string, action: string, target: string,
                                   success: bool, code: Option<ErrorCode>)

  /** A serialisation format seen only through its round-trip law. */
  datatype Codec<!T(!new)> = Codec(encode: seq<T> -> string, decode: string -> Option<seq<T>>) {
    ghost predicate Lawful() {
      && (forall xs: seq<T> :: decode(encode(xs)) == Some(xs))
      && decode("").None?
    }
  }
}
