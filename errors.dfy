/** The error enumeration of the crate (src/errors.rs). */
module Errors {

  datatype Errors =
    | AlreadyExists
    | EntryNotFound
    | DocumentWritingError
    | DbConfigurationError
}
