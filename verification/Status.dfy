/** The library's status codes that the modelled functions can return. */
module Status {

  datatype Status =
    | Success
    | NoMemory
    | BadData
    | UnknownClass
    | UnknownMethod
    | ConnectionClosed
    | InvalidParameter
    | TableTooBig
    | Timeout
    | HeartbeatTimeout
    | UnexpectedState
      /** C gives the code no meaning here; nothing is claimed about what follows. */
    | Undefined
}
