/** The apr_status_t values the parsers return. `Aborted` stands for a failed assert of the
    library and for reads outside an object, after which C promises nothing. */
module Statuses {
  datatype Status =
    | Success
    | Incomplete
    | Eof
    | General
    | BadArg
    | BadSeq
    | BadChar
    | NoAttr
    | NoToken
    | Mismatch
    | IoError
    | NoData
    | NoHeader
    | BadHeader
    | NoParser
    | OverLimit
    | Truncated     // APR_INCOMPLETE with a charset added to it
    | Aborted
}
