/** Error kinds that the modelled operations report (lib.rs). */
module Errors {
  datatype ErrorKind =
    | UnknownEncoding | IncorrectEncoding | LimitExceeded | InvalidToken | UnclosedToken | PartialCharacter
    | BadCharacterReference | ParameterEntityReference | RecursiveEntityReference | Syntax
}
